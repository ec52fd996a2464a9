/** The Hive scoring heuristic (HiveHeuristics/BasicHeuristic.java): twelve
    options, and an evaluation for a maximising player that adds a win/loss
    term, a term for the surroundings of each player's queen and a term for
    buried and pinned tiles, in Java `int` arithmetic. */
module HiveHeuristics {
  import opened Common
  import opened Options
  import opened HexGrid
  import opened HiveTypes
  import opened Folds
  import opened HiveBoard
  import opened HiveReach
  import opened HiveRuleEngine
  import opened HiveMoves
  import opened HivePlayers
  import opened HiveGames
  import opened GameTree

  /* ----- Options ----- */

  const ID_NAME := "Heuristic ID"

  /** The option names, in `getOptions` order. */
  const NAMES: seq<string> := [
    ID_NAME, "Win Score", "Lose Score",
    "Own Queen Surround Score", "Own Queen Stuck Score",
    "Opponent Queen Surround Score", "Opponent Queen Stuck Score",
    "Queen Tile Value", "Ant Tile Value", "Beetle Tile Value",
    "Grasshopper Tile Value", "Spider Tile Value"]

  const DESCRIPTIONS: seq<string> := [
    "Identifies heuristic for use, should be unique",
    "Score attributed to winning the game",
    "Score attributed to losing the game",
    "Score for each piece surrounding own queen",
    "Score for own queen being stuck",
    "Score for each piece surrounding the opponent queen",
    "Score for opponent queen being stuck",
    "Score assigned to Queen tile",
    "Score assigned to Ant tile",
    "Score assigned to Beetle tile",
    "Score assigned to Grasshopper tile",
    "Score assigned to Spider tile"]

  /** Positions of the integer options in NAMES. */
  const WIN := 1
  const LOSE := 2
  const OWN_SURROUND := 3
  const OWN_STUCK := 4
  const OPP_SURROUND := 5
  const OPP_STUCK := 6
  const QUEEN_VALUE := 7
  const ANT_VALUE := 8
  const BEETLE_VALUE := 9
  const GRASSHOPPER_VALUE := 10
  const SPIDER_VALUE := 11

  /** The spinner bounds of every integer option, `Integer.MIN_VALUE / 2` and
      `Integer.MAX_VALUE / 2` (both divisions are exact or of a positive
      number, so Java's truncation and Dafny's division agree). */
  const INT_MIN: Int32 := MIN_VALUE / 2
  const INT_MAX: Int32 := MAX_VALUE / 2

  /** The values of the twelve option objects; `None` is a value set to null. */
  datatype Scores = Scores(
    heuristicID: Option<string>,
    winScore: Option<Int32>,
    loseScore: Option<Int32>,
    ownQueenSurroundScore: Option<Int32>,
    ownQueenStuckScore: Option<Int32>,
    oppQueenSurroundScore: Option<Int32>,
    oppQueenStuckScore: Option<Int32>,
    queenTileVal: Option<Int32>,
    antTileVal: Option<Int32>,
    beetleTileVal: Option<Int32>,
    grasshopperTileVal: Option<Int32>,
    spiderTileVal: Option<Int32>)

  /** The values the option fields are initialised with. */
  const DEFAULT_SCORES: Scores := Scores(Some("BasicHeuristic"), Some(INT_MAX), Some(INT_MIN),
                                         Some(-50), Some(-300), Some(50), Some(300),
                                         Some(70), Some(80), Some(60), Some(50), Some(50))

  /** The integer option at position k of NAMES. */
  function IntSetting(s: Scores, k: int): Option<Int32>
    requires WIN <= k <= SPIDER_VALUE
  {
    if k == WIN then s.winScore
    else if k == LOSE then s.loseScore
    else if k == OWN_SURROUND then s.ownQueenSurroundScore
    else if k == OWN_STUCK then s.ownQueenStuckScore
    else if k == OPP_SURROUND then s.oppQueenSurroundScore
    else if k == OPP_STUCK then s.oppQueenStuckScore
    else if k == QUEEN_VALUE then s.queenTileVal
    else if k == ANT_VALUE then s.antTileVal
    else if k == BEETLE_VALUE then s.beetleTileVal
    else if k == GRASSHOPPER_VALUE then s.grasshopperTileVal
    else s.spiderTileVal
  }

  /** The values with the integer option at position k set to v. */
  function WithIntSetting(s: Scores, k: int, v: Option<Int32>): (t: Scores)
    requires WIN <= k <= SPIDER_VALUE
    ensures t.heuristicID == s.heuristicID
    ensures forall j :: WIN <= j <= SPIDER_VALUE ==> IntSetting(t, j) == if j == k then v else IntSetting(s, j)
  {
    if k == WIN then s.(winScore := v)
    else if k == LOSE then s.(loseScore := v)
    else if k == OWN_SURROUND then s.(ownQueenSurroundScore := v)
    else if k == OWN_STUCK then s.(ownQueenStuckScore := v)
    else if k == OPP_SURROUND then s.(oppQueenSurroundScore := v)
    else if k == OPP_STUCK then s.(oppQueenStuckScore := v)
    else if k == QUEEN_VALUE then s.(queenTileVal := v)
    else if k == ANT_VALUE then s.(antTileVal := v)
    else if k == BEETLE_VALUE then s.(beetleTileVal := v)
    else if k == GRASSHOPPER_VALUE then s.(grasshopperTileVal := v)
    else s.(spiderTileVal := v)
  }

  /** The position of an option name in NAMES, or -1 for a name no case of
      the `setOptions` switch matches. */
  function SlotOf(name: string): (k: int)
    ensures -1 <= k < |NAMES|
    ensures k >= 0 ==> NAMES[k] == name
    ensures k == -1 <==> name !in NAMES
  {
    if name == NAMES[0] then 0
    else if name == NAMES[1] then 1
    else if name == NAMES[2] then 2
    else if name == NAMES[3] then 3
    else if name == NAMES[4] then 4
    else if name == NAMES[5] then 5
    else if name == NAMES[6] then 6
    else if name == NAMES[7] then 7
    else if name == NAMES[8] then 8
    else if name == NAMES[9] then 9
    else if name == NAMES[10] then 10
    else if name == NAMES[11] then 11
    else -1
  }

  /** The names are distinct, so each is found at its own position. */
  lemma SlotOfNames(k: int)
    requires 0 <= k < |NAMES|
    ensures SlotOf(NAMES[k]) == k
  {
  }

  function BoxText<H>(v: Option<string>): OptionValue<H>
  {
    if v.Some? then TextValue(v.value) else Null
  }

  function BoxInt<H>(v: Option<Int32>): OptionValue<H>
  {
    if v.Some? then IntValue(v.value) else Null
  }

  /** `(String) option.getValue()`: null passes the cast. */
  function UnboxText<H>(v: OptionValue<H>): (r: Result<Option<string>>)
    ensures r.Ok? <==> v.TextValue? || v.Null?
    ensures r.Ok? ==> BoxText(r.value) == v
    ensures r.Err? ==> r.error == ClassCast
  {
    match v
    case TextValue(t) => Ok(Some(t))
    case Null => Ok(None)
    case _ => Err(ClassCast)
  }

  /** `(Integer) option.getValue()`: null passes the cast. */
  function UnboxInt<H>(v: OptionValue<H>): (r: Result<Option<Int32>>)
    ensures r.Ok? <==> v.IntValue? || v.Null?
    ensures r.Ok? ==> BoxInt(r.value) == v
    ensures r.Err? ==> r.error == ClassCast
  {
    match v
    case IntValue(i) => Ok(Some(i))
    case Null => Ok(None)
    case _ => Err(ClassCast)
  }

  /** The value the option of the given name holds, or None for a name that
      is not one of the twelve. */
  function Setting<H>(s: Scores, name: string): Option<OptionValue<H>>
  {
    var k := SlotOf(name);
    if k == 0 then Some(BoxText(s.heuristicID))
    else if k > 0 then Some(BoxInt(IntSetting(s, k)))
    else None
  }

  /** `intOption`: a spinner over Integer bounded by half the `int` range. */
  function IntOption<H>(name: string, description: string, value: Option<Int32>): ConfigOption<H>
  {
    ConfigOption(name, description, Spinner, IntegerClass, BoxInt(value), IntValue(INT_MIN), IntValue(INT_MAX), None)
  }

  function OptionAt<H>(s: Scores, k: int): ConfigOption<H>
    requires 0 <= k < |NAMES|
  {
    if k == 0 then ConfigOption(ID_NAME, DESCRIPTIONS[0], TextBox, StringClass, BoxText(s.heuristicID), Null, Null, None)
    else IntOption(NAMES[k], DESCRIPTIONS[k], IntSetting(s, k))
  }

  /** `getOptions`: the twelve options in a fixed order, each holding its
      current value; the identifier is a text box and every score a spinner
      bounded by half the `int` range. */
  function OptionList<H>(s: Scores): (options: seq<ConfigOption<H>>)
    ensures |options| == |NAMES| == 12
    ensures forall k :: 0 <= k < 12 ==> options[k].name == NAMES[k] && Some(options[k].value) == Setting(s, NAMES[k])
    ensures options[0].kind == TextBox && options[0].valueType == StringClass
    ensures forall k :: 1 <= k < 12 ==>
      && options[k].kind == Spinner && options[k].valueType == IntegerClass
      && options[k].minValue == IntValue(INT_MIN) && options[k].maxValue == IntValue(INT_MAX)
  {
    var options := seq(12, (k: int) requires 0 <= k < 12 => OptionAt(s, k));
    assert forall k :: 0 <= k < 12 ==> SlotOf(NAMES[k]) == k by {
      forall k | 0 <= k < 12 ensures SlotOf(NAMES[k]) == k {
        SlotOfNames(k);
      }
    }
    options
  }

  /** One pass of the `setOptions` loop: the option of a matching name is
      set, after a cast that throws ClassCastException for a value of the
      wrong class; an unknown name changes nothing. */
  function ApplyOption<H>(s: Scores, o: ConfigOption<H>): Result<Scores>
  {
    var k := SlotOf(o.name);
    if k == 0 then
      match UnboxText(o.value)
      case Ok(t) => Ok(s.(heuristicID := t))
      case Err(e) => Err(e)
    else if k > 0 then
      match UnboxInt(o.value)
      case Ok(v) => Ok(WithIntSetting(s, k, v))
      case Err(e) => Err(e)
    else Ok(s)
  }

  /** The options `setOptions` takes without throwing. */
  predicate Accepts<H>(o: ConfigOption<H>)
  {
    var k := SlotOf(o.name);
    && (k == 0 ==> o.value.TextValue? || o.value.Null?)
    && (k > 0 ==> o.value.IntValue? || o.value.Null?)
  }

  /** Applying an option sets exactly the option of that name to its value and
      leaves every other option as it was; an unknown name is ignored, and a
      value of the wrong class throws. */
  lemma ApplyOptionEffect<H>(s: Scores, o: ConfigOption<H>)
    ensures ApplyOption(s, o).Ok? <==> Accepts(o)
    ensures ApplyOption(s, o).Err? ==> ApplyOption(s, o).error == ClassCast
    ensures o.name !in NAMES ==> ApplyOption(s, o) == Ok(s)
    ensures ApplyOption(s, o).Ok? && o.name in NAMES ==> Setting(ApplyOption(s, o).value, o.name) == Some(o.value)
    ensures ApplyOption(s, o).Ok? ==>
      forall n :: n != o.name ==> Setting<H>(ApplyOption(s, o).value, n) == Setting<H>(s, n)
  {
    if ApplyOption(s, o).Ok? {
      var t := ApplyOption(s, o).value;
      forall n | n != o.name
        ensures Setting<H>(t, n) == Setting<H>(s, n)
      {
        if SlotOf(n) >= 0 {
          assert SlotOf(n) != SlotOf(o.name);
        }
      }
    }
  }

  /** `setOptions` completes exactly when every option of a known name has a
      value of its class; options of unknown names never make it throw. */
  lemma SetOptionsOutcome<H>(s: Scores, options: seq<ConfigOption<H>>)
    ensures ApplyAll(ApplyOption, s, options).outcome.Done? <==> forall k :: 0 <= k < |options| ==> Accepts(options[k])
    ensures ApplyAll(ApplyOption, s, options).outcome.Failed? ==> ApplyAll(ApplyOption, s, options).outcome.error == ClassCast
  {
    forall st: Scores, o: ConfigOption<H>
      ensures ApplyOption(st, o).Ok? <==> Accepts(o)
    {
      ApplyOptionEffect(st, o);
    }
    ApplyAllOutcome(ApplyOption, Accepts, s, options);
    if ApplyAll(ApplyOption, s, options).outcome.Failed? {
      var k :| 0 <= k < |options| && !Accepts(options[k])
        && ApplyAll(ApplyOption, s, options).outcome.error == ApplyOption(ApplyAll(ApplyOption, s, options).state, options[k]).error;
      ApplyOptionEffect(ApplyAll(ApplyOption, s, options).state, options[k]);
    }
  }

  /** A loop over options none of which changes the state ends where it began. */
  lemma {:induction false} ApplyAllFixed<H>(s: Scores, options: seq<ConfigOption<H>>)
    requires forall k :: 0 <= k < |options| ==> ApplyOption(s, options[k]) == Ok(s)
    ensures ApplyAll(ApplyOption, s, options) == Applied(s, Done)
    decreases |options|
  {
    if options != [] {
      assert ApplyOption(s, options[0]) == Ok(s);
      assert forall k :: 0 <= k < |options[1..]| ==> options[1..][k] == options[k + 1];
      ApplyAllFixed(s, options[1..]);
    }
  }

  /** Handing the heuristic its own options back changes nothing. */
  lemma SetOwnOptions<H>(s: Scores)
    ensures ApplyAll(ApplyOption, s, OptionList<H>(s)) == Applied(s, Done)
  {
    var options := OptionList<H>(s);
    forall k | 0 <= k < |options|
      ensures ApplyOption(s, options[k]) == Ok(s)
    {
      OwnOptionFixed<H>(s, k);
    }
    ApplyAllFixed(s, options);
  }

  /** Each of the heuristic's own options, handed back, leaves its values as
      they were. */
  lemma OwnOptionFixed<H>(s: Scores, k: int)
    requires 0 <= k < 12
    ensures ApplyOption(s, OptionList<H>(s)[k]) == Ok(s)
  {
    var o := OptionList<H>(s)[k];
    SlotOfNames(k);
    if k > 0 {
      assert UnboxInt(o.value) == Ok(IntSetting(s, k));
      WithOwnSetting(s, k);
    }
  }

  /** Setting an option to the value it already holds changes nothing. */
  lemma WithOwnSetting(s: Scores, k: int)
    requires WIN <= k <= SPIDER_VALUE
    ensures WithIntSetting(s, k, IntSetting(s, k)) == s
  {
    if k == WIN {
    } else if k == LOSE {
    } else if k == OWN_SURROUND {
    } else if k == OWN_STUCK {
    } else if k == OPP_SURROUND {
    } else if k == OPP_STUCK {
    } else if k == QUEEN_VALUE {
    } else if k == ANT_VALUE {
    } else if k == BEETLE_VALUE {
    } else if k == GRASSHOPPER_VALUE {
    }
  }

  /* ----- The evaluation, stated on the option values ----- */

  /** Every score option holds a number: the evaluation unboxes each one it
      reads, and a null throws. */
  predicate Configured(s: Scores)
  {
    forall k :: WIN <= k <= SPIDER_VALUE ==> IntSetting(s, k).Some?
  }

  function Score(s: Scores, k: int): Int32
    requires Configured(s) && WIN <= k <= SPIDER_VALUE
  {
    IntSetting(s, k).value
  }

  function TileValueName(t: TileType): string
  {
    match t
    case QueenBee => "Queen Tile Value"
    case Ant => "Ant Tile Value"
    case Beetle => "Beetle Tile Value"
    case Grasshopper => "Grasshopper Tile Value"
    case Spider => "Spider Tile Value"
  }

  /** `pieceValues`: the value of the option named for the tile type. */
  function PieceValues(s: Scores, t: TileType): Int32
    requires Configured(s)
  {
    match t
    case QueenBee => Score(s, QUEEN_VALUE)
    case Ant => Score(s, ANT_VALUE)
    case Beetle => Score(s, BEETLE_VALUE)
    case Grasshopper => Score(s, GRASSHOPPER_VALUE)
    case Spider => Score(s, SPIDER_VALUE)
  }

  /** Each tile type is worth the value of the option named for it. */
  lemma PieceValuesNamed<H>(s: Scores, t: TileType)
    requires Configured(s)
    ensures Setting<H>(s, TileValueName(t)) == Some(IntValue(PieceValues(s, t)))
  {
  }

  /** A tile counts against the scoring colour when it is that colour's and
      for it otherwise. */
  function Signed(s: Scores, colour: Colour, t: HiveTile): int
    requires Configured(s)
  {
    if t.colour == colour then -(PieceValues(s, t.tileType) as int) else PieceValues(s, t.tileType)
  }

  function BuriedScore(s: Scores, colour: Colour, tiles: seq<HiveTile>): int
    requires Configured(s)
  {
    if tiles == [] then 0
    else BuriedScore(s, colour, tiles[..|tiles| - 1]) + Signed(s, colour, tiles[|tiles| - 1])
  }

  /** A top tile with two or more occupied neighbours whose lifting would
      split the hive. */
  ghost predicate Pinned(b: Board, t: HiveTile)
  {
    OccupiedAround(b, t.hex) >= 2 && !OneHiveWhileMoving(b, t)
  }

  /** What one stack adds: its buried tiles, and its top when pinned. */
  ghost function StackScore(s: Scores, b: Board, colour: Colour, p: Hex): int
    requires Configured(s) && WellStacked(b) && p in b
  {
    var stack := b[p];
    BuriedScore(s, colour, stack[..|stack| - 1])
      + if Pinned(b, stack[|stack| - 1]) then Signed(s, colour, stack[|stack| - 1]) else 0
  }

  ghost function StackScores(s: Scores, b: Board, colour: Colour): Hex -> int
    requires Configured(s) && WellStacked(b)
  {
    (p: Hex) => if p in b then StackScore(s, b, colour, p) else 0
  }

  /** On a board whose tiles sit where they are stored, next is total with the
      score of the stack at p added, wrapped to 32 bits. */
  ghost predicate StackAdded(s: Scores, b: Board, colour: Colour, p: Hex, total: int, next: int)
    requires Configured(s) && WellStacked(b) && p in b
  {
    Located(b) ==> next == Wrap(total + StackScore(s, b, colour, p))
  }

  /** One stack added to the total of `stuckPieces`. */
  lemma StuckStep(s: Scores, b: Board, colour: Colour, done: set<Hex>, p: Hex, before: int, total: int)
    requires Configured(s) && WellStacked(b) && p in b && p !in done && Located(b)
    requires before == Wrap(Sum(done, StackScores(s, b, colour)))
    requires StackAdded(s, b, colour, p, before, total)
    ensures total == Wrap(Sum(done + {p}, StackScores(s, b, colour)))
  {
    var f := StackScores(s, b, colour);
    assert f(p) == StackScore(s, b, colour, p);
    WrappedSumStep(done, f, p, before, total);
  }

  lemma WrappedSumStep(done: set<Hex>, f: Hex -> int, p: Hex, before: int, total: int)
    requires p !in done && before == Wrap(Sum(done, f)) && total == Wrap(before + f(p))
    ensures total == Wrap(Sum(done + {p}, f))
  {
    SumAdd(done, f, p);
    WrapStep(before, Sum(done, f), f(p), Sum(done + {p}, f));
  }

  /** The exact total `stuckPieces` accumulates. */
  ghost function StuckScore(s: Scores, b: Board, colour: Colour): int
    requires Configured(s) && WellStacked(b)
  {
    Sum(b.Keys, StackScores(s, b, colour))
  }

  ghost predicate QueenOf(b: Board, colour: Colour, q: HiveTile)
  {
    q in Tiles(b) && q.tileType == QueenBee && q.colour == colour
  }

  /** The queen has no move: lifting it splits the hive, or no neighbour is
      a step it may take. */
  ghost predicate QueenStuck(b: Board, q: HiveTile)
  {
    !OneHiveWhileMoving(b, q) || forall n :: Adjacent(q.hex, n) ==> !QueenStep(b, q, n)
  }

  function SurroundScore(s: Scores, own: bool): Int32
    requires Configured(s)
  {
    Score(s, if own then OWN_SURROUND else OPP_SURROUND)
  }

  function QueenStuckScore(s: Scores, own: bool): Int32
    requires Configured(s)
  {
    Score(s, if own then OWN_STUCK else OPP_STUCK)
  }

  /** The exact `queenSurround` total for a queen with `occupied` occupied
      neighbours: the first neighbour is free. */
  function QueenScore(s: Scores, own: bool, occupied: int, stuck: bool): int
    requires Configured(s)
  {
    (occupied - 1) * SurroundScore(s, own) + if stuck then QueenStuckScore(s, own) else 0
  }

  /** v is the queen term for the colour: 0 without a queen, else the score of
      one of its queens. */
  ghost predicate QueenTerm(s: Scores, b: Board, colour: Colour, own: bool, v: int)
    requires Configured(s)
  {
    if exists q :: QueenOf(b, colour, q) then
      exists q :: QueenOf(b, colour, q) && v == QueenScore(s, own, OccupiedAround(b, q.hex), QueenStuck(b, q))
    else v == 0
  }

  /** r is what `queenSurround` returns for the colour: 0 without a queen,
      else the wrapped score of one of its queens, stuck exactly when it has
      no move (on a board whose tops sit at their keys). */
  ghost predicate SurroundResult(s: Scores, b: Board, colour: Colour, own: bool, r: Int32)
    requires Configured(s) && WellStacked(b)
  {
    && ((forall q :: !QueenOf(b, colour, q)) ==> r == 0)
    && ((exists q :: QueenOf(b, colour, q)) ==>
          exists q, stuck ::
            && QueenOf(b, colour, q)
            && r == Wrap(QueenScore(s, own, OccupiedAround(b, q.hex), stuck))
            && (Located(b) ==> (stuck <==> QueenStuck(b, q))))
  }

  ghost predicate Terminal(b: Board)
  {
    PieceCount(b) >= 7 && SomeQueenSurrounded(b)
  }

  ghost predicate Won(b: Board, colour: Colour)
  {
    exists queens :: QueensOf(b, queens) && Verdict(b, colour, queens) == Some(Win)
  }

  /** `winOrLose`: nothing while play goes on, the win score for a win and the
      lose score for anything else. */
  ghost function WinOrLoseScore(s: Scores, b: Board, colour: Colour): Int32
    requires Configured(s)
  {
    if !Terminal(b) then 0 else if Won(b, colour) then Score(s, WIN) else Score(s, LOSE)
  }

  /** r is the evaluation for the maximising colour against the minimising one:
      the wrapped sum of the four terms. */
  ghost predicate Evaluates(s: Scores, b: Board, maxColour: Colour, minColour: Colour, r: int)
    requires Configured(s) && WellStacked(b)
  {
    exists win, own, opp, stuck :: EvaluatesWith(s, b, maxColour, minColour, r, win, own, opp, stuck)
  }

  /** The evaluation with its four terms named. */
  ghost predicate EvaluatesWith(s: Scores, b: Board, maxColour: Colour, minColour: Colour, r: int,
                                win: int, own: int, opp: int, stuck: int)
    requires Configured(s) && WellStacked(b)
  {
    && win == WinOrLoseScore(s, b, maxColour)
    && QueenTerm(s, b, maxColour, true, own)
    && QueenTerm(s, b, minColour, false, opp)
    && stuck == StuckScore(s, b, maxColour)
    && r == Wrap(win + own + opp + stuck)
  }

  /* ----- Lemmas about the terms ----- */

  /** Any two lists of the board's queens are permutations of each other. */
  lemma QueenListsAgree(b: Board, xs: seq<HiveTile>, ys: seq<HiveTile>)
    requires QueensOf(b, xs) && QueensOf(b, ys)
    ensures multiset(xs) == multiset(ys)
  {
    forall t ensures multiset(xs)[t] == multiset(ys)[t] {
    }
  }

  /** A win for some list of the board's queens is a win for every list. */
  lemma WonExactly(b: Board, colour: Colour, queens: seq<HiveTile>)
    requires QueensOf(b, queens)
    ensures Won(b, colour) <==> Verdict(b, colour, queens) == Some(Win)
  {
    if Won(b, colour) {
      var other :| QueensOf(b, other) && Verdict(b, colour, other) == Some(Win);
      QueenListsAgree(b, other, queens);
      VerdictOrderFree(b, colour, other, queens);
    }
  }

  /** At the end of a game the term is the win score exactly when one queen is
      surrounded and it is the other colour's; a draw scores as a loss. */
  lemma WinOrLoseCases(s: Scores, b: Board, colour: Colour, queens: seq<HiveTile>)
    requires Configured(s) && QueensOf(b, queens) && Terminal(b)
    ensures Verdict(b, colour, queens) == Some(Win) ==> WinOrLoseScore(s, b, colour) == Score(s, WIN)
    ensures Verdict(b, colour, queens) in {Some(Loss), Some(Draw)} ==> WinOrLoseScore(s, b, colour) == Score(s, LOSE)
    ensures Verdict(b, colour, queens).Some?
  {
    WonExactly(b, colour, queens);
    TerminalHasResult(b, colour, queens);
  }

  lemma {:induction false} OccupiedAmongGrows(b: Board, h: Hex, i: nat, j: nat)
    requires i <= j <= 6
    ensures OccupiedAmong(b, h, i) <= OccupiedAmong(b, h, j)
    decreases j
  {
    if i < j {
      OccupiedAmongGrows(b, h, i, j - 1);
    }
  }

  /** On a board whose tops sit at their keys, the queen's generated move list
      is empty exactly when the queen is stuck. */
  lemma QueenStuckExactly(b: Board, q: HiveTile, moves: Result<seq<HiveMove>>)
    requires WellStacked(b) && Located(b) && q.tileType == QueenBee
    requires moves == Ok([]) || KindMoves(b, q, moves)
    requires !OneHiveWhileMoving(b, q) ==> moves == Ok([])
    requires OneHiveWhileMoving(b, q) ==> KindMoves(b, q, moves)
    ensures moves.Ok?
    ensures moves.value == [] <==> QueenStuck(b, q)
  {
    if OneHiveWhileMoving(b, q) {
      var keep := QueenKeeps(b, q);
      var targets := Targets(q.hex, 6, keep);
      assert moves == Ok(StepMoves(q, targets));
      if targets == [] {
        forall n | Adjacent(q.hex, n)
          ensures !QueenStep(b, q, n)
        {
          TargetsMembers(q.hex, keep, n);
        }
      } else {
        TargetsMembers(q.hex, keep, targets[0]);
        assert Adjacent(q.hex, targets[0]) && QueenStep(b, q, targets[0]);
      }
    }
  }

  /* ----- The heuristic object ----- */

  /** `canBeStuck`: whether two of the neighbours of the stack's top tile are
      occupied, scanning the neighbours in order and stopping at the second. */
  method CanBeStuck(board: HiveBoardState, stack: seq<HiveTile>) returns (r: bool)
    requires stack != []
    ensures r <==> OccupiedAround(board.Contents(), stack[|stack| - 1].hex) >= 2
  {
    var b := board.Contents();
    var h := stack[|stack| - 1].hex;
    var ns := Neighbours(h);
    var count := 0;
    var i := 0;
    while i < 6
      invariant 0 <= i <= 6
      invariant count == OccupiedAmong(b, h, i) <= 1
    {
      if board.HasPieceAt(ns[i]) {
        count := count + 1;
      }
      if count > 1 {
        OccupiedAmongGrows(b, h, i + 1, 6);
        return true;
      }
      i := i + 1;
    }
    return false;
  }

  /** The neighbour loop of `queenSurround`: the surround score once for each
      occupied neighbour of h, less once. */
  method SurroundTotal(board: HiveBoardState, h: Hex, surround: Int32) returns (total: Int32)
    ensures total == Wrap((OccupiedAround(board.Contents(), h) - 1) * surround)
  {
    var b := board.Contents();
    var ns := Neighbours(h);
    total := Wrap(-(surround as int));
    var i := 0;
    while i < 6
      invariant 0 <= i <= 6
      invariant total == Wrap((OccupiedAmong(b, h, i) - 1) * surround)
    {
      if board.HasPieceAt(ns[i]) {
        MulStep(OccupiedAmong(b, h, i), surround);
        WrapStep(total, (OccupiedAmong(b, h, i) - 1) * surround, surround, (OccupiedAmong(b, h, i + 1) - 1) * surround);
        total := Wrap(total as int + surround);
      } else {
        assert total == Wrap((OccupiedAmong(b, h, i + 1) - 1) * surround);
      }
      i := i + 1;
    }
  }

  lemma MulStep(a: int, v: int)
    ensures (a - 1) * v + v == a * v
  {
  }

  class BasicHeuristic {
    var heuristicID: Option<string>
    var winScore: Option<Int32>
    var loseScore: Option<Int32>
    var ownQueenSurroundScore: Option<Int32>
    var ownQueenStuckScore: Option<Int32>
    var oppQueenSurroundScore: Option<Int32>
    var oppQueenStuckScore: Option<Int32>
    var queenTileVal: Option<Int32>
    var antTileVal: Option<Int32>
    var beetleTileVal: Option<Int32>
    var grasshopperTileVal: Option<Int32>
    var spiderTileVal: Option<Int32>

    function Current(): Scores
      reads this
    {
      Scores(heuristicID, winScore, loseScore, ownQueenSurroundScore, ownQueenStuckScore,
             oppQueenSurroundScore, oppQueenStuckScore, queenTileVal, antTileVal, beetleTileVal,
             grasshopperTileVal, spiderTileVal)
    }

    constructor ()
      ensures Current() == DEFAULT_SCORES
    {
      heuristicID := Some("BasicHeuristic");
      winScore := Some(INT_MAX);
      loseScore := Some(INT_MIN);
      ownQueenSurroundScore := Some(-50);
      ownQueenStuckScore := Some(-300);
      oppQueenSurroundScore := Some(50);
      oppQueenStuckScore := Some(300);
      queenTileVal := Some(70);
      antTileVal := Some(80);
      beetleTileVal := Some(60);
      grasshopperTileVal := Some(50);
      spiderTileVal := Some(50);
    }

    function GetOptions<H>(): (options: seq<ConfigOption<H>>)
      reads this
      ensures options == OptionList(Current())
    {
      OptionList(Current())
    }

    /** `setOptions`: applies the options in order until a cast throws. */
    method SetOptions<H>(options: seq<ConfigOption<H>>) returns (outcome: Outcome)
      modifies this
      ensures Applied(Current(), outcome) == ApplyAll(ApplyOption, old(Current()), options)
    {
      var i := 0;
      while i < |options|
        invariant 0 <= i <= |options|
        invariant ApplyAll(ApplyOption, Current(), options[i..]) == ApplyAll(ApplyOption, old(Current()), options)
      {
        var o := options[i];
        assert options[i..][1..] == options[i + 1..];
        var k := SlotOf(o.name);
        if k == 0 {
          var t := UnboxText(o.value);
          if t.Err? { return Failed(t.error); }
          heuristicID := t.value;
        } else if k > 0 {
          var v := UnboxInt(o.value);
          if v.Err? { return Failed(v.error); }
          SetScore(k, v.value);
        }
        i := i + 1;
      }
      return Done;
    }

    /** One integer case of the `setOptions` switch. */
    method SetScore(k: int, v: Option<Int32>)
      requires WIN <= k <= SPIDER_VALUE
      modifies this
      ensures Current() == WithIntSetting(old(Current()), k, v)
    {
      if k == WIN { winScore := v; }
      else if k == LOSE { loseScore := v; }
      else if k == OWN_SURROUND { ownQueenSurroundScore := v; }
      else if k == OWN_STUCK { ownQueenStuckScore := v; }
      else if k == OPP_SURROUND { oppQueenSurroundScore := v; }
      else if k == OPP_STUCK { oppQueenStuckScore := v; }
      else if k == QUEEN_VALUE { queenTileVal := v; }
      else if k == ANT_VALUE { antTileVal := v; }
      else if k == BEETLE_VALUE { beetleTileVal := v; }
      else if k == GRASSHOPPER_VALUE { grasshopperTileVal := v; }
      else { spiderTileVal := v; }
    }

    /** `winOrLose` for the player. */
    method WinOrLose(game: HiveGame, player: HivePlayer) returns (r: Int32)
      requires game.Valid() && Configured(Current())
      ensures r == WinOrLoseScore(Current(), game.board.Contents(), player.colour)
    {
      var terminal := game.IsTerminalState();
      if !terminal {
        return 0;
      }
      var b := game.board.Contents();
      var result := game.GetGameResult(player);
      ghost var queens :| QueensOf(b, queens) && result.value == Verdict(b, player.colour, queens);
      WonExactly(b, player.colour, queens);
      r := if result.value == Some(Win) then Score(Current(), WIN) else Score(Current(), LOSE);
    }

    /** `queenSurround`: nothing without a queen; otherwise the surround score
        for each occupied neighbour but one, plus the stuck score when the
        queen's move list is empty. */
    method QueenSurround(game: HiveGame, playerWithQueen: HivePlayer, isMaxPlayer: bool) returns (r: Int32)
      requires game.Valid() && Configured(Current())
      requires forall t :: t in Tiles(game.board.Contents()) ==> DrawsFor(game.board.Contents(), t)
      ensures SurroundResult(Current(), game.board.Contents(), playerWithQueen.colour, isMaxPlayer, r)
    {
      var b := game.board.Contents();
      var s := Current();
      var surround := SurroundScore(s, isMaxPlayer);
      var stuckScore := QueenStuckScore(s, isMaxPlayer);
      var queen := game.board.GetQueenOfPlayer(playerWithQueen.colour);
      if queen.None? {
        return 0;
      }
      var q := queen.value;
      var total := SurroundTotal(game.board, q.hex, surround);
      ghost var base := (OccupiedAround(b, q.hex) - 1) * surround;
      assert total == Wrap(base);
      assert DrawsFor(b, q);
      var stuck := HasNoMoves(game.board, q);
      if stuck {
        WrapStep(total, base, stuckScore, QueenScore(s, isMaxPlayer, OccupiedAround(b, q.hex), stuck));
        total := Wrap(total as int + stuckScore);
      }
      assert total == Wrap(QueenScore(s, isMaxPlayer, OccupiedAround(b, q.hex), stuck));
      assert QueenOf(b, playerWithQueen.colour, q);
      assert b == game.board.Contents() && s == Current();
      return total;
    }

    /** `generatePieceMoves(board, queen).isEmpty()`. */
    static method HasNoMoves(board: HiveBoardState, q: HiveTile) returns (stuck: bool)
      requires board.Valid() && q.tileType == QueenBee
      requires DrawsFor(board.Contents(), q)
      ensures Located(board.Contents()) ==> (stuck <==> QueenStuck(board.Contents(), q))
    {
      var moves := GeneratePieceMoves(board, q);
      assert moves.Ok?;
      if Located(board.Contents()) {
        QueenStuckExactly(board.Contents(), q, moves);
      }
      return moves.value == [];
    }

    /** `stuckPieces`: over every stack, each buried tile and each pinned top
        counted against the player's own colour and for the other. */
    method StuckPieces(game: HiveGame, maxPlayer: HivePlayer) returns (r: Int32)
      requires game.Valid() && Configured(Current())
      requires forall t :: t in Tiles(game.board.Contents()) ==> DrawsFor(game.board.Contents(), t)
      ensures Located(game.board.Contents()) ==> r == Wrap(StuckScore(Current(), game.board.Contents(), maxPlayer.colour))
    {
      var b := game.board.Contents();
      var s := Current();
      var colour := maxPlayer.colour;
      ghost var f := StackScores(s, b, colour);
      var total: Int32 := 0;
      var rest := b.Keys;
      while rest != {}
        invariant rest <= b.Keys
        invariant Located(b) ==> total == Wrap(Sum(b.Keys - rest, f))
        decreases rest
      {
        var p :| p in rest;
        ghost var done := b.Keys - rest;
        ghost var before := total;
        total := StackPieces(game, colour, p, total);
        assert b == game.board.Contents() && s == Current();
        if Located(b) {
          StuckStep(s, b, colour, done, p, before, total);
        }
        assert b.Keys - (rest - {p}) == done + {p};
        rest := rest - {p};
      }
      assert b.Keys - rest == b.Keys;
      return total;
    }

    /** The body of the `stuckPieces` loop for the stack at p. */
    method StackPieces(game: HiveGame, colour: Colour, p: Hex, total: Int32) returns (next: Int32)
      requires game.Valid() && Configured(Current()) && p in game.board.Contents()
      requires forall t :: t in Tiles(game.board.Contents()) ==> DrawsFor(game.board.Contents(), t)
      ensures StackAdded(Current(), game.board.Contents(), colour, p, total as int, next as int)
    {
      var b := game.board.Contents();
      var s := Current();
      var stack := b[p];
      var top := stack[|stack| - 1];
      next := BuriedPieces(stack, colour, total);
      ghost var prev := next;
      TilesMember(b, top);
      var pinned := IsPinned(game.board, stack);
      if pinned {
        var delta: int := if top.colour == colour then -(PieceValues(s, top.tileType) as int) else PieceValues(s, top.tileType);
        next := Wrap(next as int + delta);
      }
      StackStepAdded(s, b, colour, p, pinned, total as int, prev as int, next as int);
      assert b == game.board.Contents() && s == Current();
    }

    /** The two tests `stuckPieces` makes of a stack's top tile: two occupied
        neighbours, then the one-hive check. */
    static method IsPinned(board: HiveBoardState, stack: seq<HiveTile>) returns (pinned: bool)
      requires board.Valid() && stack != []
      requires DrawsFor(board.Contents(), stack[|stack| - 1])
      ensures Located(board.Contents()) ==> (pinned <==> Pinned(board.Contents(), stack[|stack| - 1]))
    {
      var crowded := CanBeStuck(board, stack);
      if !crowded {
        return false;
      }
      var oneHive := IsOneHiveWhileMoving(board, stack[|stack| - 1]);
      return !oneHive;
    }

    /** The buried tiles of a stack, bottom first, each counted against the
        colour's own tiles and for the other's. */
    method BuriedPieces(stack: seq<HiveTile>, colour: Colour, total: Int32) returns (next: Int32)
      requires Configured(Current()) && stack != []
      ensures next == Wrap(total + BuriedScore(Current(), colour, stack[..|stack| - 1]))
    {
      var s := Current();
      var buried := stack[..|stack| - 1];
      next := total;
      if |stack| > 1 {
        var j := 0;
        while j < |buried|
          invariant 0 <= j <= |buried|
          invariant next == Wrap(total + BuriedScore(s, colour, buried[..j]))
        {
          assert buried[..j + 1][..j] == buried[..j];
          var t := buried[j];
          var delta: int := if t.colour == colour then -(PieceValues(s, t.tileType) as int) else PieceValues(s, t.tileType);
          WrapStep(next, total + BuriedScore(s, colour, buried[..j]), delta, total + BuriedScore(s, colour, buried[..j + 1]));
          next := Wrap(next as int + delta);
          j := j + 1;
        }
        assert buried[..|buried|] == buried;
      } else {
        assert buried == [];
      }
    }

    /** Both forms of `getEvaluation`: the four terms added up in order. */
    method Evaluate(game: HiveGame, maxPlayer: HivePlayer, minPlayer: HivePlayer) returns (r: Int32)
      requires game.Valid() && Configured(Current())
      requires forall t :: t in Tiles(game.board.Contents()) ==> DrawsFor(game.board.Contents(), t)
      ensures Located(game.board.Contents()) ==>
        Evaluates(Current(), game.board.Contents(), maxPlayer.colour, minPlayer.colour, r)
    {
      var b := game.board.Contents();
      var s := Current();
      var w := WinOrLose(game, maxPlayer);
      var own := QueenSurround(game, maxPlayer, true);
      var opp := QueenSurround(game, minPlayer, false);
      var stuck := StuckPieces(game, maxPlayer);
      var first: Int32 := Wrap(w as int + own);
      var second: Int32 := Wrap(first as int + opp);
      r := Wrap(second as int + stuck);
      assert b == game.board.Contents() && s == Current();
      if Located(b) {
        assert w == WinOrLoseScore(s, b, maxPlayer.colour);
        assert SurroundResult(s, b, maxPlayer.colour, true, own);
        assert SurroundResult(s, b, minPlayer.colour, false, opp);
        assert stuck == Wrap(StuckScore(s, b, maxPlayer.colour));
        EvaluationMeaning(s, b, maxPlayer.colour, minPlayer.colour, w, own, opp, stuck, first, second, r);
      }
    }

    /** `getEvaluation(game)`: the current player maximises against the
        current opponent. */
    method GetEvaluation(game: HiveGame) returns (r: Int32)
      requires game.Valid() && Configured(Current())
      requires forall t :: t in Tiles(game.board.Contents()) ==> DrawsFor(game.board.Contents(), t)
      ensures Located(game.board.Contents()) ==>
        Evaluates(Current(), game.board.Contents(), game.CurrentPlayer().colour, game.CurrentOpponent().colour, r)
    {
      r := Evaluate(game, game.CurrentPlayer(), game.CurrentOpponent());
    }

    /** `getEvaluation(game, maxPlayer)`: the minimiser is the other player
        when the maximiser is to move, and the player to move otherwise. */
    method GetEvaluationFor(game: HiveGame, maxPlayer: HivePlayer) returns (r: Int32)
      requires game.Valid() && Configured(Current())
      requires forall t :: t in Tiles(game.board.Contents()) ==> DrawsFor(game.board.Contents(), t)
      ensures Located(game.board.Contents()) ==>
        Evaluates(Current(), game.board.Contents(), maxPlayer.colour,
                  (if game.CurrentPlayer() == maxPlayer then game.CurrentOpponent() else game.CurrentPlayer()).colour, r)
    {
      var minPlayer := if game.CurrentPlayer() == maxPlayer then game.CurrentOpponent() else game.CurrentPlayer();
      r := Evaluate(game, maxPlayer, minPlayer);
    }
  }

  /** The steps `stuckPieces` takes for the stack at p add up to its score. */
  lemma StackStepAdded(s: Scores, b: Board, colour: Colour, p: Hex, pinned: bool, total: int, prev: int, next: int)
    requires Configured(s) && WellStacked(b) && p in b
    requires Located(b) ==> (pinned <==> Pinned(b, b[p][|b[p]| - 1]))
    requires prev == Wrap(total + BuriedScore(s, colour, b[p][..|b[p]| - 1]))
    requires next == if pinned then Wrap(prev + Signed(s, colour, b[p][|b[p]| - 1])) else prev
    ensures StackAdded(s, b, colour, p, total, next)
  {
    if Located(b) {
      StackStep(s, b, colour, p, pinned, total, prev, next);
    }
  }

  lemma StackStep(s: Scores, b: Board, colour: Colour, p: Hex, pinned: bool, total: int, prev: int, next: int)
    requires Configured(s) && WellStacked(b) && p in b && Located(b)
    requires pinned <==> Pinned(b, b[p][|b[p]| - 1])
    requires prev == Wrap(total + BuriedScore(s, colour, b[p][..|b[p]| - 1]))
    requires next == if pinned then Wrap(prev + Signed(s, colour, b[p][|b[p]| - 1])) else prev
    ensures next == Wrap(total + StackScore(s, b, colour, p))
  {
    StackScoreSplit(s, b, colour, p, pinned);
    StackSum(s, colour, b[p], pinned, total, prev, next);
    WrapRestate(next, total + BuriedScore(s, colour, b[p][..|b[p]| - 1]) + (if pinned then Signed(s, colour, b[p][|b[p]| - 1]) else 0),
                total + StackScore(s, b, colour, p));
  }

  lemma StackScoreSplit(s: Scores, b: Board, colour: Colour, p: Hex, pinned: bool)
    requires Configured(s) && WellStacked(b) && p in b && Located(b)
    requires pinned <==> Pinned(b, b[p][|b[p]| - 1])
    ensures StackScore(s, b, colour, p)
      == BuriedScore(s, colour, b[p][..|b[p]| - 1]) + (if pinned then Signed(s, colour, b[p][|b[p]| - 1]) else 0)
  {
  }

  lemma StackSum(s: Scores, colour: Colour, stack: seq<HiveTile>, pinned: bool, total: int, prev: int, next: int)
    requires Configured(s) && stack != []
    requires prev == Wrap(total + BuriedScore(s, colour, stack[..|stack| - 1]))
    requires next == if pinned then Wrap(prev + Signed(s, colour, stack[|stack| - 1])) else prev
    ensures next == Wrap(total + BuriedScore(s, colour, stack[..|stack| - 1]) + (if pinned then Signed(s, colour, stack[|stack| - 1]) else 0))
  {
    var exact := total + BuriedScore(s, colour, stack[..|stack| - 1]);
    if pinned {
      WrapStep(prev, exact, Signed(s, colour, stack[|stack| - 1]), exact + Signed(s, colour, stack[|stack| - 1]));
    }
  }

  /** The three wrapped additions of `getEvaluation` end at the wrapped exact
      sum of the four terms. */
  lemma EvaluationSum(w: int, own: int, opp: int, stuck: int, ownV: int, oppV: int, stuckV: int,
                      first: int, second: int, r: int)
    requires own == Wrap(ownV) && opp == Wrap(oppV) && stuck == Wrap(stuckV)
    requires first == Wrap(w + own) && second == Wrap(first + opp) && r == Wrap(second + stuck)
    ensures r == Wrap(w + ownV + oppV + stuckV)
  {
    WrapAdd(ownV, w);
    assert first == Wrap(w + ownV);
    WrapSum(w + ownV, oppV);
    assert second == Wrap(w + ownV + oppV);
    WrapSum(w + ownV + oppV, stuckV);
  }

  /** The four terms `getEvaluation` adds make up the evaluation. */
  lemma EvaluationMeaning(s: Scores, b: Board, maxColour: Colour, minColour: Colour,
                          w: int, own: Int32, opp: Int32, stuck: int, first: int, second: int, r: int)
    requires Configured(s) && WellStacked(b) && Located(b)
    requires w == WinOrLoseScore(s, b, maxColour)
    requires SurroundResult(s, b, maxColour, true, own) && SurroundResult(s, b, minColour, false, opp)
    requires stuck == Wrap(StuckScore(s, b, maxColour))
    requires first == Wrap(w + own) && second == Wrap(first + opp) && r == Wrap(second + stuck)
    ensures Evaluates(s, b, maxColour, minColour, r)
  {
    var ownV := QueenTermOf(s, b, maxColour, true, own);
    var oppV := QueenTermOf(s, b, minColour, false, opp);
    var stuckV := StuckScore(s, b, maxColour);
    EvaluationSum(w, own, opp, stuck, ownV, oppV, stuckV, first, second, r);
    EvaluatesFrom(s, b, maxColour, minColour, r, w, ownV, oppV, stuckV);
  }

  lemma EvaluatesFrom(s: Scores, b: Board, maxColour: Colour, minColour: Colour, r: int,
                      w: int, own: int, opp: int, stuck: int)
    requires Configured(s) && WellStacked(b)
    requires w == WinOrLoseScore(s, b, maxColour) && stuck == StuckScore(s, b, maxColour)
    requires QueenTerm(s, b, maxColour, true, own) && QueenTerm(s, b, minColour, false, opp)
    requires r == Wrap(w + own + opp + stuck)
    ensures Evaluates(s, b, maxColour, minColour, r)
  {
    assert EvaluatesWith(s, b, maxColour, minColour, r, w, own, opp, stuck);
  }

  /** The exact queen term behind a `queenSurround` result on a board whose
      tops sit at their keys. */
  ghost function QueenTermOf(s: Scores, b: Board, colour: Colour, own: bool, r: Int32): (v: int)
    requires Configured(s) && WellStacked(b)
    requires SurroundResult(s, b, colour, own, r)
    requires Located(b)
    ensures QueenTerm(s, b, colour, own, v) && r == Wrap(v)
  {
    if exists q :: QueenOf(b, colour, q) then
      var q, stuck :| && QueenOf(b, colour, q)
                      && r == Wrap(QueenScore(s, own, OccupiedAround(b, q.hex), stuck))
                      && (stuck <==> QueenStuck(b, q));
      QueenScore(s, own, OccupiedAround(b, q.hex), stuck)
    else 0
  }

  /** `evaluateBoardState`: the game's own heuristic, built with the default
      option values, evaluates the game for the player to move. */
  method EvaluateBoardState(game: HiveGame) returns (r: Int32)
    requires game.Valid()
    requires forall t :: t in Tiles(game.board.Contents()) ==> DrawsFor(game.board.Contents(), t)
    ensures Located(game.board.Contents()) ==>
      Evaluates(DEFAULT_SCORES, game.board.Contents(), game.CurrentPlayer().colour, game.CurrentOpponent().colour, r)
  {
    var heuristic := new BasicHeuristic();
    r := heuristic.GetEvaluation(game);
  }
}
