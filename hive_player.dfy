/** A player's hand: how many tiles of each type are still to be placed. */
module Hands {
  import opened Common
  import opened HiveTypes

  type Hand = map<TileType, int>

  /** `createHand`: one queen, two grasshoppers, two beetles, three ants and
      three spiders. */
  const INITIAL_HAND: Hand := map[QueenBee := 1, Grasshopper := 2, Beetle := 2, Ant := 3, Spider := 3]

  /** `tiles.getOrDefault(type, 0)`. */
  function Remaining(hand: Hand, t: TileType): int
  {
    if t in hand then hand[t] else 0
  }

  /** `tiles.put(type, tiles.get(type) - 1)`: unboxing the count of a type the
      hand lacks throws NullPointerException. */
  function Decremented(hand: Hand, t: TileType): (r: Result<Hand>)
    ensures r.Err? <==> t !in hand
    ensures r.Err? ==> r.error == NullPointer
    ensures r.Ok? ==> r.value.Keys == hand.Keys
  {
    if t in hand then Ok(hand[t := hand[t] - 1]) else Err(NullPointer)
  }

  /** The new hand holds every type of the initial hand, in the counts
      1, 2, 2, 3, 3, eleven tiles in all. */
  lemma InitialHandCounts()
    ensures forall t :: t in INITIAL_HAND
    ensures Remaining(INITIAL_HAND, QueenBee) == 1 && Remaining(INITIAL_HAND, Grasshopper) == 2
    ensures Remaining(INITIAL_HAND, Beetle) == 2 && Remaining(INITIAL_HAND, Ant) == 3
    ensures Remaining(INITIAL_HAND, Spider) == 3
    ensures Remaining(INITIAL_HAND, QueenBee) + Remaining(INITIAL_HAND, Grasshopper) + Remaining(INITIAL_HAND, Beetle)
      + Remaining(INITIAL_HAND, Ant) + Remaining(INITIAL_HAND, Spider) == 11
  {
    forall t ensures t in INITIAL_HAND {
      match t
      case QueenBee =>
      case Grasshopper =>
      case Beetle =>
      case Ant =>
      case Spider =>
    }
  }

  /** Taking a tile of a type the hand still holds lowers that count by one
      and leaves every other count as it was. */
  lemma DecrementedCounts(hand: Hand, t: TileType)
    requires Remaining(hand, t) > 0
    ensures Decremented(hand, t).Ok?
    ensures Remaining(Decremented(hand, t).value, t) == Remaining(hand, t) - 1
    ensures forall u :: u != t ==> Remaining(Decremented(hand, t).value, u) == Remaining(hand, u)
  {
  }

  /** A type missing from the hand counts as zero, and taking one then fails. */
  lemma MissingTypeCounts(hand: Hand, t: TileType)
    requires t !in hand
    ensures Remaining(hand, t) == 0 && Decremented(hand, t) == Err(NullPointer)
  {
  }
}

/** HivePlayers/HivePlayer.java: a player with a colour, an identifier and a
    hand; `removeTile` returns a changed copy of the hand. HiveAI.java, the
    subclass that delegates to a search model, is told apart by `isAI`. */
module HivePlayers {
  import opened Common
  import opened HiveTypes
  import opened Options
  import opened Hands

  const OPT_PLAYER_ID := "Player ID"
  const DESC_PLAYER_ID := "Identifier for Player"

  /** `getClass().getSimpleName()`. */
  function SimpleName(isAI: bool): string
  {
    if isAI then "HiveAI" else "HivePlayer"
  }

  /** `(String) option.getValue()`: a string, or `None` for null, which the
      cast lets through; any other value throws ClassCastException. */
  function AsText<H>(v: OptionValue<H>): (r: Result<Option<string>>)
    ensures r.Ok? <==> v.TextValue? || v.Null?
    ensures v.TextValue? ==> r == Ok(Some(v.t))
    ensures v.Null? ==> r == Ok(None)
    ensures r.Err? ==> r.error == ClassCast
  {
    match v
    case TextValue(t) => Ok(Some(t))
    case Null => Ok(None)
    case _ => Err(ClassCast)
  }

  /** One step of `setOptions`: "Player ID" sets the identifier, any other
      name throws IllegalArgumentException. */
  function ApplyPlayerOption<H>(id: Option<string>, o: ConfigOption<H>): Result<Option<string>>
  {
    if o.name == OPT_PLAYER_ID then AsText(o.value) else Err(IllegalArgument)
  }

  ghost predicate AcceptsPlayerOption<H>(o: ConfigOption<H>)
  {
    o.name == OPT_PLAYER_ID && (o.value.TextValue? || o.value.Null?)
  }

  /** `setOptions` completes exactly when every option is a "Player ID" with
      a string or null value; the identifier is then the last one given
      (`None` when that one is null), and any other name fails. */
  lemma SetPlayerOptionsOutcome<H>(id: Option<string>, options: seq<ConfigOption<H>>)
    ensures ApplyAll(ApplyPlayerOption, id, options).outcome.Done? <==> forall k :: 0 <= k < |options| ==> AcceptsPlayerOption(options[k])
    ensures forall o :: o in options && o.name != OPT_PLAYER_ID ==> ApplyAll(ApplyPlayerOption, id, options).outcome.Failed?
    ensures (forall k :: 0 <= k < |options| ==> AcceptsPlayerOption(options[k])) && options != [] ==>
      var last := options[|options| - 1].value;
      ApplyAll(ApplyPlayerOption, id, options).state == if last.Null? then None else Some(last.t)
  {
    ApplyAllOutcome(ApplyPlayerOption, AcceptsPlayerOption, id, options);
    if (forall k :: 0 <= k < |options| ==> AcceptsPlayerOption(options[k])) && options != [] {
      LastPlayerIdWins(id, options);
    }
  }

  lemma {:induction false} LastPlayerIdWins<H>(id: Option<string>, options: seq<ConfigOption<H>>)
    requires options != []
    requires forall k :: 0 <= k < |options| ==> AcceptsPlayerOption(options[k])
    ensures var last := AsText(options[|options| - 1].value);
      last.Ok? && ApplyAll(ApplyPlayerOption, id, options).state == last.value
    decreases |options|
  {
    assert AcceptsPlayerOption(options[|options| - 1]);
    if |options| > 1 {
      LastPlayerIdWins(AsText(options[0].value).value, options[1..]);
    }
  }

  class HivePlayer {
    const colour: Colour
    const isAI: bool
    var playerID: Option<string>   // None for null
    var tiles: Hand

    /** A player with the initial hand, named after its class. */
    constructor (colour: Colour, isAI: bool)
      ensures this.colour == colour && this.isAI == isAI
      ensures tiles == INITIAL_HAND && playerID == Some(SimpleName(isAI))
    {
      this.colour := colour;
      this.isAI := isAI;
      tiles := INITIAL_HAND;
      playerID := Some(SimpleName(isAI));
    }

    /** The three-argument constructor: takes a copy of the given hand. */
    constructor WithHand(tiles: Hand, colour: Colour, playerID: Option<string>, isAI: bool)
      ensures this.tiles == tiles && this.colour == colour && this.playerID == playerID && this.isAI == isAI
    {
      this.tiles := tiles;
      this.colour := colour;
      this.playerID := playerID;
      this.isAI := isAI;
    }

    /** `removeTile`: a copy of the hand with one tile of the type fewer; the
        player's own hand is not changed. */
    function RemoveTile(t: TileType): (r: Result<Hand>)
      reads this
      ensures Remaining(tiles, t) > 0 ==> r.Ok? && Remaining(r.value, t) == Remaining(tiles, t) - 1
      ensures r.Ok? ==> forall u :: u != t ==> Remaining(r.value, u) == Remaining(tiles, u)
      ensures t !in tiles ==> r == Err(NullPointer)
    {
      Decremented(tiles, t)
    }

    function GetTypeRemainingTiles(t: TileType): (n: int)
      reads this
      ensures t !in tiles ==> n == 0
      ensures t in tiles ==> n == tiles[t]
    {
      Remaining(tiles, t)
    }

    method SetHand(hand: Hand)
      modifies this`tiles
      ensures tiles == hand
    {
      tiles := hand;
    }

    /** `getOptions`: the single "Player ID" option, whose value is the class
        name rather than the current identifier. */
    function GetOptions<H>(): (options: seq<ConfigOption<H>>)
      reads this
      ensures |options| == 1 && options[0].name == OPT_PLAYER_ID
      ensures options[0].value == TextValue(SimpleName(isAI)) && options[0].valueType == StringClass
    {
      [ConfigOption(OPT_PLAYER_ID, DESC_PLAYER_ID, TextBox, StringClass, TextValue(SimpleName(isAI)), Null, Null, None)]
    }

    method SetOptions<H>(options: seq<ConfigOption<H>>) returns (outcome: Outcome)
      modifies this`playerID
      ensures Applied(playerID, outcome) == ApplyAll(ApplyPlayerOption, old(playerID), options)
    {
      var i := 0;
      while i < |options|
        invariant 0 <= i <= |options|
        invariant ApplyAll(ApplyPlayerOption, playerID, options[i..]) == ApplyAll(ApplyPlayerOption, old(playerID), options)
      {
        var o := options[i];
        assert options[i..][1..] == options[i + 1..];
        if o.name == OPT_PLAYER_ID {
          var v := AsText(o.value);
          if v.Err? { return Failed(v.error); }
          playerID := v.value;
        } else {
          return Failed(IllegalArgument);
        }
        i := i + 1;
      }
      return Done;
    }
  }
}

/** HivePlayer.java in the framework's root package: an earlier player whose
    `removeTile` changes its own hand. */
module FrameworkPlayer {
  import opened Common
  import opened HiveTypes
  import opened Hands

  class HivePlayer {
    var tiles: Hand
    var colour: Colour

    constructor (colour: Colour)
      ensures tiles == INITIAL_HAND && this.colour == colour
    {
      tiles := INITIAL_HAND;
      this.colour := colour;
    }

    /** The two-argument constructor: takes a copy of the given hand. */
    constructor WithHand(tiles: Hand, colour: Colour)
      ensures this.tiles == tiles && this.colour == colour
    {
      this.tiles := tiles;
      this.colour := colour;
    }

    /** `removeTile`: one tile of the type fewer, in place; a type the hand
        lacks throws when its count is unboxed. */
    method RemoveTile(t: TileType) returns (outcome: Outcome)
      modifies this`tiles
      ensures Decremented(old(tiles), t).Ok? ==> outcome == Done && tiles == Decremented(old(tiles), t).value
      ensures Decremented(old(tiles), t).Err? ==> outcome == Failed(NullPointer) && tiles == old(tiles)
    {
      if t !in tiles {
        return Failed(NullPointer);
      }
      tiles := tiles[t := tiles[t] - 1];
      return Done;
    }

    function GetTypeRemainingTiles(t: TileType): (n: int)
      reads this
      ensures t !in tiles ==> n == 0
      ensures t in tiles ==> n == tiles[t]
    {
      Remaining(tiles, t)
    }

    method SetHand(hand: Hand)
      modifies this`tiles
      ensures tiles == hand
    {
      tiles := hand;
    }
  }
}
