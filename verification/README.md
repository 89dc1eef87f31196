# Builtin registry and sprite/frame bridge of an embedded-script game loop

This project models two small sequential cores of a Go program that embeds the
Tengo script language in a game loop, and proves properties of the models in
Dafny.

1. **The builtin-function registry** (`extBuiltinFunc.go`). A process-wide,
   ordered list of (name, native function) pairs. `AddFunction` appends a pair
   unless the name is already there. `AddFunctions` walks a batch in order and
   abandons the rest of the batch at the first name that is already there.
   `builtinIsExist` is a linear scan. The global list is modelled as an
   immutable `seq<Builtin>` that each operation takes and returns. A native
   function is an opaque identity `FnId`.
2. **The sprite bridge and the frame counter** (`examples/issue_sample/game.go`).
   - `Sprite.move(x, y)` checks the argument count and converts both arguments
     to float64, writing `X` and then `Y`.
   - `Sprite.GetTengoObject` wraps a sprite as a one-key script map.
   - `Game.waitForNextFrame` is the script side of the frame lockstep, and
     `Game.Update` is the host side. Both are modelled as pure steps that
     return the channel and context operations they perform, as an event
     trace. `Game.Layout` returns the fixed screen size.

Script values are the datatype `Objects.Object`. It has cases for integers,
floats, strings, undefined, maps, native functions, and an `Other(typeName)`
case for every kind of value the conversion never accepts. The runtime's
conversion to float64 accepts integers, floats and strings that parse as a
number. Coordinates are `real`.

Two details of `move` follow the Go code exactly:

- `if s.X, ok = ToFloat64(args[0]); !ok` assigns `X` before `ok` is tested.
  The runtime's conversion returns the zero value when it fails. So a bad `x`
  leaves `X` at 0 and `Y` unchanged.
- A bad `y` leaves `X` at the converted `x` and `Y` at 0.

Modules: `Wrappers` (Option, Result), `Registry`, `Decimal` (decimal text to
number), `Objects` (script values, type names, numeric conversion, call errors), `Bridge` (sprite), `Frames`
(frame counter, update, layout).

## Model

| member | source | states |
|---|---|---|
| `Registry.BuiltinIsExist` | extBuiltinFunc.go:19-27 | The scan returns true exactly when some entry has that exact name. It walks the whole list without stopping early. It receives the registry by value, so it cannot change it. |
| `Registry.AddFunction` | extBuiltinFunc.go:3-8 | Afterwards the name is registered. The registry grows by one entry exactly when the name was new, and otherwise stays the same. Earlier entries are unchanged. A new entry is the given (name, function) pair at the end. |
| `Registry.AddFunctionThenExists` | extBuiltinFunc.go:3-8 | After `AddFunction(name, f)` the scan finds `name`. If the name was new, it now resolves to `f`. |
| `Registry.AddFunctionIdempotent` | extBuiltinFunc.go:4-6 | Registering a name twice gives the same registry as registering it once, even if the second attempt carries a different function. |
| `Registry.AddFunctionNeverOverwrites` | extBuiltinFunc.go:4-7 | The first registration wins. A later `AddFunction` under any name never changes what an already registered name resolves to. |
| `Registry.AddFunctionPreservesDistinct` | extBuiltinFunc.go:3-8 | If names are pairwise distinct before `AddFunction`, they are pairwise distinct after it. |
| `Registry.AddFunctions` | extBuiltinFunc.go:10-17 | The result is the old registry followed by a prefix of the batch, in batch order. It grows by at most the batch length. |
| `Registry.AddFunctionsStopsAt` | extBuiltinFunc.go:10-17 | The accepted prefix matches an independent description of the stop point. Every accepted entry was new when it was reached. The first rejected entry was already present when it was reached, either in the registry or earlier in the batch. |
| `Registry.StopsAtUnique` | extBuiltinFunc.go:10-17 | At most one position fits that description of the stop point. |
| `Registry.AddFunctionsSpec` | extBuiltinFunc.go:10-17 | Whenever the description picks position `k`, the result is exactly the registry followed by the first `k` batch entries. |
| `Registry.AddFunctionsAcceptsAll` | extBuiltinFunc.go:10-17 | The whole batch is appended in order exactly when its names are pairwise distinct and none is registered yet (both directions). |
| `Registry.AddFunctionsStopsAtDuplicate` | extBuiltinFunc.go:11-14 | Short circuit: suppose entry `j` has a name that is already registered or repeats an earlier entry of the batch. Then nothing from entry `j` on is added, not even names that were never registered. |
| `Registry.AddFunctionsExample` | extBuiltinFunc.go:11-14 | With `B` registered, the batch `[A, B, C]` adds only `A`. |
| `Registry.AddFunctionsPreservesDistinct` | extBuiltinFunc.go:10-17 | If names are pairwise distinct before `AddFunctions`, they are pairwise distinct after it. |
| `Registry.AddFunctionsNeverOverwrites` | extBuiltinFunc.go:10-17 | A batch registration never changes what an already registered name resolves to. |
| `Registry.AddFunctionsSingleton` | extBuiltinFunc.go:3-17 | A one-entry batch behaves exactly like a single `AddFunction`. |
| `Bridge.Move` | examples/issue_sample/game.go:131-147 | The call succeeds exactly when there are two numeric arguments. It then returns undefined and sets the position to the two converted values. A count other than two gives the wrong-number-of-arguments error and leaves the sprite unchanged. A bad `x` gives the error (name "x", expected "float64", found = first argument's type): `X` becomes 0 and `Y` is not touched. A bad `y` after a good `x` gives the error (name "y", found = FIRST argument's type): `X` is already written and `Y` becomes 0. |
| `Bridge.MoveMisreportsY` | examples/issue_sample/game.go:142-143 | When the two argument types differ, the as-written error for a bad `y` does not report the offending argument's type. |
| `Bridge.MoveMisreportsEveryBadY` | examples/issue_sample/game.go:142-143 | For every value the runtime can produce, a non-numeric `y` after an integer or float `x` is misreported. A number's type name is never that of a value the conversion rejects. |
| `Bridge.MoveStringsReportY` | examples/issue_sample/game.go:142-143 | `move("1", "a")` fails on `y` with `X` set to 1 and `Y` to 0. Both type names are "string", so the error as written happens to report the right type. |
| `Bridge.MoveNumericStrings` | examples/issue_sample/game.go:138-146 | Numeric strings convert: `move("1", "-2")` succeeds and moves the sprite to (1, -2). |
| `Decimal.ParseFormatNat` | examples/issue_sample/game.go:138-142 | The string conversion used by `move` reads the decimal digits of `n` back as `n`, and with a leading '-' as `-n`. |
| `Decimal.ParseFloatRejects` | examples/issue_sample/game.go:138-142 | A string with a character that is not a digit, a sign or '.' does not convert. |
| `Bridge.MoveIntended` | examples/issue_sample/game.go:131-147 | Corrected `move`. It succeeds exactly on two numeric arguments and sets the position to them. The count error occurs exactly on a wrong count. Every type error names a parameter whose argument is not numeric and reports that argument's type. |
| `Bridge.MoveIntendedAgrees` | examples/issue_sample/game.go:138-146 | The corrected and as-written `move` leave the same position and agree on success. Their results differ exactly in the bad-`y` case where the two argument types differ. |
| `Bridge.GetTengoObject` | examples/issue_sample/game.go:123-129 | The object is a map with exactly one key, "move". That key is bound to a native function named "move", tagged with the sprite's index. |
| `Bridge.Invoke` | examples/issue_sample/game.go:123-129 | Calling a script value works exactly when it is a native function bound to one of the sprites. The call leaves the number of sprites the same and every other sprite unchanged. |
| `Bridge.GetTengoObjectMoves` | examples/issue_sample/game.go:123-147 | Calling the "move" member of sprite `i`'s object is `move` on sprite `i`. That sprite changes exactly as `Bridge.Move` says, no other sprite changes, and the script gets `Move`'s result. |
| `Bridge.GetTengoObjectMovesTo` | examples/issue_sample/game.go:123-147 | `obj.move(x, y)` with two numbers moves sprite `i` to (x, y), leaves the other sprites where they are, and returns undefined. |
| `Bridge.GetTengoObjectSeparate` | examples/issue_sample/game.go:123-129 | Calling the "move" member of sprite `i`'s object never changes a different sprite `j`. |
| `Frames.WaitForNextFrame` | examples/issue_sample/game.go:173-184 | The counter grows by exactly one and the call returns undefined with no error. Past the first frame, the first event is the done for the pre-call counter. The script cancels exactly when the counter becomes 2000. Its last event is the wait for the next start. |
| `Frames.WaitForNextFrameFrames` | examples/issue_sample/game.go:174-176 | A frame wait sends nothing on the start channel. On the done channel it sends the pre-call counter, and only when that counter is positive, so the first call sends none. Only done, cancel and await-start events occur. |
| `Frames.WaitForNextFrameCounts` | examples/issue_sample/game.go:177-182 | A frame wait blocks for a start exactly once and never waits for done. It cancels once exactly when the counter becomes 2000, and otherwise not at all. |
| `Frames.Update` | examples/issue_sample/game.go:156-160 | Update sends the counter value it read on the start channel and then waits for done. It sends nothing on the done channel. |
| `Frames.Layout` | examples/issue_sample/game.go:169-171 | The screen size is 320 x 240, whatever the outside size. |
| `Frames.ScriptRun` | examples/issue_sample/game.go:173-184 | After `n` frame waits from 0, the counter is `n`. |
| `Frames.ScriptRunDone` | examples/issue_sample/game.go:173-184 | Along the script's run the done channel carries 1, 2, ... in order, with none on the first call. |
| `Frames.ScriptRunAwaits` | examples/issue_sample/game.go:173-184 | Along the script's run the script blocks for a start once per call. |
| `Frames.ScriptRunCancels` | examples/issue_sample/game.go:173-184 | Along the script's run cancel happens at most once: exactly once if the run reaches 2000. |
| `Frames.Lockstep` | examples/issue_sample/game.go:156-184 | The run is the script's first frame wait followed by host update / script wait rounds. After `k` rounds the shared counter is `k + 1`. The run stops at 2000, the value at which the script cancels its context. In round `r` the host sends the counter value it read, which is `r`, or `r - 1` when it read before the script's increment. |
| `Frames.LockstepDone` | examples/issue_sample/game.go:156-184 | No frame is lost or repeated on the done channel. Frames 1, 2, ... are reported done in order, one per round, and none after the cancellation. |
| `Frames.LockstepStarts` | examples/issue_sample/game.go:156-158 | The host starts one frame per round. In round `r` it sends `r`, or `r - 1` when its unsynchronised read of the counter came before the script's increment. |
| `Frames.LockstepFramesInOrder` | examples/issue_sample/game.go:156-184 | When the host always reads after the script's increment, frames 1..k are each started once and reported done once, in order. |
| `Frames.LockstepWaits` | examples/issue_sample/game.go:156-184 | Each side waits once per round, and the script waits once more for the first start. The context is cancelled once if the run reaches 2000, and never otherwise. |
| `Frames.LockstepEndsAtCancel` | examples/issue_sample/game.go:177-182 | The run ends at the cancellation: every run of at least 1999 rounds is the same run. Its last two events are the script's cancel and its final wait for a start. |
| `Frames.AlternatesRound` | examples/issue_sample/game.go:156-184 | Adding one update/wait round keeps the trace alternating, provided the script's done is for the frame the host started or for the next one. |
| `Frames.LockstepAlternates` | examples/issue_sample/game.go:156-184 | Every start the host sends is followed at once by the host's wait for done, and then by the script's done. That done is for the started frame or the next one. It is exactly for the started frame when the host always reads after the script's increment. |

## Left out

- Goroutines, the unbuffered rendezvous of the two channels, and `context` cancellation semantics (game.go lines 28-29, 189, 222-228). Only the order of events at the rendezvous points is modelled. After the cancel (game.go:179-181), `RunContext` returns the context's error and the goroutine panics (game.go:223-226). The script's loop (game.go:86-91) has no other exit. The model ends the run at the cancel. It does not model a start the host may still hand over between the cancel and the panic.
- At start-up, the first frame wait sends no done. Whether the host's first update runs before or after the script's first increment is the round-1 case of `hostFirst`. Blocking and deadlock freedom are not modelled.
- The cancel function is called by the script-side native `waitForNextFrame` (game.go:179-181), not by the host.
- Rendering and windowing through ebiten: `NewSprite`, `Sprite.setup`, `Sprite.Draw`, `Game.Draw`, and window setup in `main`. This is a foreign library with image state. The sprite's image and draw options are therefore not part of `Bridge.Sprite`.
- The embedded script and module source texts (game.go lines 31-93). They are input for the script VM, which is not part of this model. The per-frame (5, 5) step comes from the embedded script (game.go:52) and is not modelled.
- `main` wiring of module maps, `stdlib`, `script.RunContext`, and the panic and log exits. This is plumbing over the runtime's API.
- `fmt.Println` and `ebitenutil.DebugPrint` output.
- The runtime's `ToFloat64` and `TypeName` are not part of this model. `Objects.ToFloat64` states the assumed behaviour: integers and floats convert, a string converts when it parses as a number, and anything else fails with the zero value. The type names follow the runtime's names ("int", "float", "string", "undefined", "map", "user-function").
- Decimal.ParseFloat: accepts only an optional sign, digits, and an optional fraction after '.'. Go's float parsing also accepts exponents, hexadecimal mantissas, underscores after a base prefix, and "Inf", "Infinity" and "NaN"; these strings fail here. Go rounds to the nearest float64 and rejects values outside the float64 range; here a long digit string converts to its exact value.
- Float64 arithmetic: coordinates are `real`. The integer-to-float conversion is exact, so rounding of integers above 2^53 is not modelled.
- Go `int` width of the frame counter: the counter is unbounded `nat`. Overflow would need about 2^63 frames.
- Frames.Lockstep: the host reads the shared counter (game.go:157) with no synchronisation against the script's increment (game.go:177). This is a data race under Go's memory model. The model assumes the read sees one of the two values, before or after the increment, chosen per round by the parameter `hostFirst`. It does not model torn or otherwise undefined reads. `Game.Draw`'s read of the counter is not modelled either.
- `Game.Update` always returns a nil error. The model returns only its events.
- A native function value is an opaque `FnId` in the registry. In the bridge, the bound method `s.move` is `SpriteMove(index)`, naming the sprite by position instead of by pointer.
- Registry.AddFunctions: a nil descriptor in the batch makes the loop panic when it reads `f.Name` (extBuiltinFunc.go:12). The registry stores the caller's own descriptor pointer (extBuiltinFunc.go:15), so a later change to that descriptor changes the registry. Entries here are values, so neither is modelled.
- The registry is passed explicitly rather than held in a package variable. Concurrent registration is undefined in the source and is not modelled.

## Findings

| source | as written | input that shows it | evidently intended | confidence | as-written member | corrected member |
|---|---|---|---|---|---|---|
| examples/issue_sample/game.go:143 | The error for a non-numeric `y` sets `Found` to `args[0].TypeName()` | `move(1, "a")` reports found "int" | `args[1].TypeName()`, which is "string" here, as line 139 does for `x` | high; not executed | `Bridge.MoveMisreportsY` (on `Bridge.Move`) | `Bridge.MoveIntended` |
