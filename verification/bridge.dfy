/** The bridge that exposes a host-owned sprite to the script as a map object
    whose one member, `move`, validates its arguments and writes the sprite's
    position (examples/issue_sample/game.go, type Sprite). Image and draw
    options are rendering state and are not modelled. */
module Bridge {

  import opened Wrappers
  import opened Objects
  import Decimal

  /** A sprite's position. */
  datatype Sprite = Sprite(x: real, y: real)

  /** The sprite as it is after a native call, and what the call returned. */
  datatype Moved = Moved(sprite: Sprite, result: CallResult)

  /** The kind both coordinates must convert to. */
  const Float64 := "float64"

  /** The parameter names of `move`, by position. */
  const Params := ["x", "y"]

  /** An argument-type error names a parameter of `move`, that parameter's
      argument is indeed not numeric, and the type reported is that argument's. */
  predicate ReportsOffender(args: seq<Object>, r: CallResult)
  {
    r.Err? && r.error.InvalidArgumentType? ==>
      exists i :: 0 <= i < |Params| && i < |args| && Params[i] == r.error.name
                  && !Numeric(args[i]) && r.error.found == args[i].TypeName()
  }

  /** `move(x, y)` as written. Each coordinate is assigned the conversion's
      result before the conversion is checked, so a failed conversion leaves the
      coordinate at zero, and a bad `y` comes after `x` was already written.
      The error for a bad `y` reports the type of the FIRST argument. */
  function Move(s: Sprite, args: seq<Object>): (c: Moved)
    ensures c.result.Ok? <==> |args| == 2 && Numeric(args[0]) && Numeric(args[1])
    ensures c.result.Ok? ==>
      c.result.value == Undefined && c.sprite == Sprite(AsReal(args[0]), AsReal(args[1]))
    ensures |args| != 2 ==> c == Moved(s, Err(WrongNumArguments))
    ensures |args| == 2 && !Numeric(args[0]) ==>
      c == Moved(Sprite(0.0, s.y), Err(InvalidArgumentType("x", Float64, args[0].TypeName())))
    ensures |args| == 2 && Numeric(args[0]) && !Numeric(args[1]) ==>
      c == Moved(Sprite(AsReal(args[0]), 0.0), Err(InvalidArgumentType("y", Float64, args[0].TypeName())))
  {
    if |args| != 2 then Moved(s, Err(WrongNumArguments))
    else
      var (x, okX) := ToFloat64(args[0]);
      var s1 := s.(x := x);
      if !okX then Moved(s1, Err(InvalidArgumentType("x", Float64, args[0].TypeName())))
      else
        var (y, okY) := ToFloat64(args[1]);
        var s2 := s1.(y := y);
        if !okY then Moved(s2, Err(InvalidArgumentType("y", Float64, args[0].TypeName())))
        else Moved(s2, Ok(Undefined))
  }

  /** `move(x, y)` with the error for a bad `y` reporting the second argument's
      type; otherwise identical to `Move`. */
  function MoveIntended(s: Sprite, args: seq<Object>): (c: Moved)
    ensures c.result.Ok? <==> |args| == 2 && Numeric(args[0]) && Numeric(args[1])
    ensures c.result.Ok? ==>
      c.result.value == Undefined && c.sprite == Sprite(AsReal(args[0]), AsReal(args[1]))
    ensures c.result.Err? ==> (c.result.error == WrongNumArguments <==> |args| != 2)
    ensures ReportsOffender(args, c.result)
  {
    if |args| != 2 then Moved(s, Err(WrongNumArguments))
    else
      var (x, okX) := ToFloat64(args[0]);
      var s1 := s.(x := x);
      if !okX then Moved(s1, Err(InvalidArgumentType("x", Float64, args[0].TypeName())))
      else
        var (y, okY) := ToFloat64(args[1]);
        var s2 := s1.(y := y);
        if !okY then Moved(s2, Err(InvalidArgumentType("y", Float64, args[1].TypeName())))
        else Moved(s2, Ok(Undefined))
  }

  /** The as-written `move` misreports a bad `y` whenever the two arguments'
      type names differ: e.g. `move(1, "a")` reports "int", not "string". */
  lemma MoveMisreportsY(s: Sprite, args: seq<Object>)
    requires |args| == 2 && Numeric(args[0]) && !Numeric(args[1])
    requires args[0].TypeName() != args[1].TypeName()
    ensures !ReportsOffender(args, Move(s, args).result)
  {
  }

  /** For values the runtime can produce, every bad `y` after an integer or
      float `x` is misreported: a number's type name is never that of a value
      the conversion rejects. */
  lemma MoveMisreportsEveryBadY(s: Sprite, args: seq<Object>)
    requires |args| == 2 && (args[0].Int? || args[0].Float?) && !Numeric(args[1])
    requires DistinctTypeName(args[1])
    ensures !ReportsOffender(args, Move(s, args).result)
  {
    assert args[0].TypeName() in {"int", "float"};
    MoveMisreportsY(s, args);
  }

  /** When both arguments are strings the misreport goes unnoticed:
      `move("1", "a")` fails on `y`, and since both type names are "string"
      the error as written happens to name the right type. */
  lemma MoveStringsReportY(s: Sprite)
    ensures Move(s, [Str("1"), Str("a")])
         == Moved(Sprite(1.0, 0.0), Err(InvalidArgumentType("y", Float64, "string")))
    ensures ReportsOffender([Str("1"), Str("a")], Move(s, [Str("1"), Str("a")]).result)
  {
    Decimal.ParseFormatNat(1);
    assert Decimal.FormatNat(1) == "1";
    Decimal.ParseFloatRejects("a", 0);
    assert Params[1] == "y";
  }

  /** Numeric strings convert: `move("1", "-2")` moves the sprite to (1, -2). */
  lemma MoveNumericStrings(s: Sprite)
    ensures Move(s, [Str("1"), Str("-2")]) == Moved(Sprite(1.0, -2.0), Ok(Undefined))
  {
    Decimal.ParseFormatNat(1);
    Decimal.ParseFormatNat(2);
    assert Decimal.FormatNat(1) == "1";
    assert Decimal.FormatNat(2) == "2";
    assert "-" + "2" == "-2";
  }

  /** The corrected `move` differs from the one as written only in the type
      name carried by the error for a bad `y`: same position, same outcome
      otherwise. */
  lemma MoveIntendedAgrees(s: Sprite, args: seq<Object>)
    ensures MoveIntended(s, args).sprite == Move(s, args).sprite
    ensures MoveIntended(s, args).result.Ok? == Move(s, args).result.Ok?
    ensures MoveIntended(s, args).result != Move(s, args).result <==>
      |args| == 2 && Numeric(args[0]) && !Numeric(args[1]) && args[0].TypeName() != args[1].TypeName()
  {
  }

  /** The script object for the sprite with the given index: a map whose only
      key is "move", bound to a native function named "move" acting on that sprite. */
  function GetTengoObject(sprite: nat): (o: Object)
    ensures o.Map? && o.entries.Keys == {"move"}
    ensures o.entries["move"].UserFunction? && o.entries["move"].name == "move"
    ensures o.entries["move"].native == SpriteMove(sprite)
  {
    Map(map["move" := UserFunction("move", SpriteMove(sprite))])
  }

  /** The script calling value `f` with `args`, against the game's sprites: a
      `move` bound to one of the sprites runs `Move` on that sprite and on no
      other. Any other value is not a native function of this bridge. */
  function Invoke(sprites: seq<Sprite>, f: Object, args: seq<Object>): (r: Option<(seq<Sprite>, CallResult)>)
    ensures r.Some? <==> f.UserFunction? && f.native.sprite < |sprites|
    ensures r.Some? ==> |r.value.0| == |sprites|
    ensures r.Some? ==> forall j :: 0 <= j < |sprites| && j != f.native.sprite ==> r.value.0[j] == sprites[j]
  {
    if f.UserFunction? && f.native.sprite < |sprites| then
      var i := f.native.sprite;
      var c := Move(sprites[i], args);
      Some((sprites[i := c.sprite], c.result))
    else None
  }

  /** Calling the "move" member of sprite `i`'s script object is `move` on
      sprite `i`: that sprite changes exactly as `Move` says, every other
      sprite is left alone, and the script gets `Move`'s result. */
  lemma GetTengoObjectMoves(sprites: seq<Sprite>, i: nat, args: seq<Object>)
    requires i < |sprites|
    ensures var r := Invoke(sprites, GetTengoObject(i).entries["move"], args);
      && r.Some?
      && r.value.0 == sprites[i := Move(sprites[i], args).sprite]
      && r.value.1 == Move(sprites[i], args).result
  {
  }

  /** The script's `obj.move(x, y)` with two numbers: sprite `i` moves to
      (x, y), the others stay where they are, and the call returns undefined. */
  lemma GetTengoObjectMovesTo(sprites: seq<Sprite>, i: nat, x: Object, y: Object)
    requires i < |sprites| && Numeric(x) && Numeric(y)
    ensures Invoke(sprites, GetTengoObject(i).entries["move"], [x, y])
         == Some((sprites[i := Sprite(AsReal(x), AsReal(y))], Ok(Undefined)))
  {
    GetTengoObjectMoves(sprites, i, [x, y]);
  }

  /** Objects of distinct sprites act on distinct sprites: calling sprite
      `i`'s "move" never touches sprite `j`. */
  lemma GetTengoObjectSeparate(sprites: seq<Sprite>, i: nat, j: nat, args: seq<Object>)
    requires i < |sprites| && j < |sprites| && i != j
    ensures Invoke(sprites, GetTengoObject(i).entries["move"], args).value.0[j] == sprites[j]
  {
  }
}
