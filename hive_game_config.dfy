/** HiveGameConfig.java: the two players chosen for the next game, the option
    list kept for each of them, and the heuristics a "Heuristic" option may
    offer. The option lists are insertion-ordered maps keyed by option name
    while they are combined, and plain lists otherwise. */
module HiveConfig {
  import opened Common
  import opened HiveTypes
  import opened Options
  import opened HivePlayers

  const HEURISTIC := "Heuristic"

  /** The identifier the default heuristic reports for itself. */
  const BASIC_HEURISTIC_ID := "BasicHeuristic"

  /** A registered heuristic, with the identifier its `getHeuristicID` reports. */
  datatype Registered<H> = Registered(id: string, heuristic: H)

  /* ----- Option lists as insertion-ordered maps ----- */

  function Names<H>(os: seq<ConfigOption<H>>): seq<string>
  {
    seq(|os|, i requires 0 <= i < |os| => os[i].name)
  }

  ghost predicate Distinct(ns: seq<string>)
  {
    forall i, j :: 0 <= i < j < |ns| ==> ns[i] != ns[j]
  }

  /** Where the entry of the given name sits, or |entries| when none has it. */
  function IndexOfName<H>(entries: seq<ConfigOption<H>>, name: string): (i: nat)
    ensures i <= |entries|
    ensures i < |entries| ==> entries[i].name == name
    ensures forall j :: 0 <= j < i ==> entries[j].name != name
    decreases |entries|
  {
    if entries == [] then 0
    else if entries[0].name == name then 0
    else 1 + IndexOfName(entries[1..], name)
  }

  /** `LinkedHashMap.put` keyed by the option's name: a name already present
      keeps its place and takes the new option; a new name goes last. */
  function Put<H>(entries: seq<ConfigOption<H>>, o: ConfigOption<H>): seq<ConfigOption<H>>
  {
    var i := IndexOfName(entries, o.name);
    if i < |entries| then entries[i := o] else entries + [o]
  }

  /** The map after putting every option of os, in order. */
  function PutAll<H>(entries: seq<ConfigOption<H>>, os: seq<ConfigOption<H>>): seq<ConfigOption<H>>
    decreases |os|
  {
    if os == [] then entries else Put(PutAll(entries, os[..|os| - 1]), os[|os| - 1])
  }

  /** The names of ns in the order they first appear, each once. */
  function FirstOccurrences(ns: seq<string>): seq<string>
  {
    if ns == [] then []
    else if ns[|ns| - 1] in ns[..|ns| - 1] then FirstOccurrences(ns[..|ns| - 1])
    else FirstOccurrences(ns[..|ns| - 1]) + [ns[|ns| - 1]]
  }

  /** The position of the last option of the given name. */
  function LastIndexNamed<H>(os: seq<ConfigOption<H>>, name: string): (r: Option<nat>)
    ensures r.Some? ==> r.value < |os| && os[r.value].name == name
    ensures r.Some? ==> forall j :: r.value < j < |os| ==> os[j].name != name
    ensures r.None? ==> forall j :: 0 <= j < |os| ==> os[j].name != name
    decreases |os|
  {
    if os == [] then None
    else if os[|os| - 1].name == name then Some(|os| - 1)
    else LastIndexNamed(os[..|os| - 1], name)
  }

  lemma {:induction false} FirstOccurrencesFacts(ns: seq<string>)
    ensures forall x :: x in FirstOccurrences(ns) <==> x in ns
    ensures Distinct(FirstOccurrences(ns))
    decreases |ns|
  {
    if ns != [] {
      FirstOccurrencesFacts(ns[..|ns| - 1]);
      assert ns == ns[..|ns| - 1] + [ns[|ns| - 1]];
    }
  }

  /** Putting a list of options into an empty map: each name once, in the
      order of its first appearance, holding the last option of that name. */
  lemma {:induction false} PutAllMeaning<H>(os: seq<ConfigOption<H>>)
    ensures Names(PutAll([], os)) == FirstOccurrences(Names(os))
    ensures forall k :: 0 <= k < |PutAll([], os)| ==> HoldsLast(os, PutAll([], os)[k])
    decreases |os|
  {
    if os != [] {
      var init := os[..|os| - 1];
      var o := os[|os| - 1];
      assert os == init + [o];
      assert Names(os) == Names(init) + [o.name];
      PutAllMeaning(init);
      FirstOccurrencesFacts(Names(init));
      PutNames(PutAll([], init), o);
      PutLookup(PutAll([], init), init, o);
    }
  }

  /** o is the last option of its name in os. */
  ghost predicate HoldsLast<H>(os: seq<ConfigOption<H>>, o: ConfigOption<H>)
  {
    var i := LastIndexNamed(os, o.name);
    i.Some? && o == os[i.value]
  }

  lemma PutNames<H>(entries: seq<ConfigOption<H>>, o: ConfigOption<H>)
    ensures o.name in Names(entries) ==> Names(Put(entries, o)) == Names(entries)
    ensures o.name !in Names(entries) ==> Names(Put(entries, o)) == Names(entries) + [o.name]
  {
    var i := IndexOfName(entries, o.name);
    if i < |entries| {
      assert Names(entries)[i] == o.name;
    }
    assert Names(Put(entries, o))[..|Put(entries, o)|] == Names(Put(entries, o));
  }

  lemma PutLookup<H>(entries: seq<ConfigOption<H>>, os: seq<ConfigOption<H>>, o: ConfigOption<H>)
    requires Distinct(Names(entries))
    requires forall k :: 0 <= k < |entries| ==> HoldsLast(os, entries[k])
    ensures forall k :: 0 <= k < |Put(entries, o)| ==> HoldsLast(os + [o], Put(entries, o)[k])
  {
    var after := Put(entries, o);
    var i := IndexOfName(entries, o.name);
    forall k | 0 <= k < |after|
      ensures HoldsLast(os + [o], after[k])
    {
      assert (os + [o])[..|os|] == os;
      if after[k].name != o.name {
        assert k < |entries| && after[k] == entries[k];
        assert LastIndexNamed(os + [o], after[k].name) == LastIndexNamed(os, after[k].name);
      } else {
        if k < |entries| && i < |entries| {
          assert Names(entries)[k] == Names(entries)[i];
        }
        assert after[k] == o;
        assert LastIndexNamed(os + [o], o.name) == Some(|os|);
      }
    }
  }

  /** Putting one list and then another is putting their concatenation. */
  lemma {:induction false} PutAllAppend<H>(e: seq<ConfigOption<H>>, a: seq<ConfigOption<H>>, b: seq<ConfigOption<H>>)
    ensures PutAll(PutAll(e, a), b) == PutAll(e, a + b)
    decreases |b|
  {
    if b == [] {
      assert a + b == a;
    } else {
      PutAllAppend(e, a, b[..|b| - 1]);
      assert (a + b)[..|a + b| - 1] == a + b[..|b| - 1];
    }
  }

  /** In one list followed by another, the last option of a name is the
      latter's when the latter has that name, and the former's otherwise. */
  lemma {:induction false} LastIndexAppend<H>(former: seq<ConfigOption<H>>, latter: seq<ConfigOption<H>>, name: string)
    ensures LastIndexNamed(latter, name).Some? ==>
      LastIndexNamed(former + latter, name) == Some(|former| + LastIndexNamed(latter, name).value)
    ensures LastIndexNamed(latter, name).None? ==> LastIndexNamed(former + latter, name) == LastIndexNamed(former, name)
    decreases |latter|
  {
    if latter == [] {
      assert former + latter == former;
    } else {
      assert (former + latter)[..|former + latter| - 1] == former + latter[..|latter| - 1];
      LastIndexAppend(former, latter[..|latter| - 1], name);
    }
  }

  /* ----- The rebuilt "Heuristic" option ----- */

  /** One choice per registered heuristic, labelled with its identifier. */
  function HeuristicChoices<H>(hs: seq<Registered<H>>): (cs: seq<OptionValue<H>>)
    ensures |cs| == |hs|
    ensures forall i :: 0 <= i < |hs| ==> cs[i] == ChoiceValue(hs[i].id, hs[i].heuristic)
  {
    if hs == [] then []
    else HeuristicChoices(hs[..|hs| - 1]) + [ChoiceValue(hs[|hs| - 1].id, hs[|hs| - 1].heuristic)]
  }

  /** The option `buildNewHeuristicOption` builds from an existing one. */
  function HeuristicOption<H>(o: ConfigOption<H>, hs: seq<Registered<H>>): ConfigOption<H>
  {
    ConfigOption(o.name, o.description, o.kind, ObjectClass, o.value, Null, Null, Some(HeuristicChoices(hs)))
  }

  /** What `combineOptions` returns. */
  function Combined<H>(newOptions: seq<ConfigOption<H>>, oldOptions: seq<ConfigOption<H>>,
                       hs: seq<Registered<H>>): seq<ConfigOption<H>>
  {
    Rebuilt(PutAll(PutAll([], oldOptions), newOptions), hs)
  }

  /** The map with its "Heuristic" entry, if any, rebuilt. */
  function Rebuilt<H>(m: seq<ConfigOption<H>>, hs: seq<Registered<H>>): seq<ConfigOption<H>>
  {
    var i := IndexOfName(m, HEURISTIC);
    if i < |m| then Put(m, HeuristicOption(m[i], hs)) else m
  }

  /** Rebuilding replaces the "Heuristic" entry in its place and touches no
      other entry. */
  lemma RebuiltInPlace<H>(m: seq<ConfigOption<H>>, hs: seq<Registered<H>>)
    requires Distinct(Names(m))
    ensures Names(Rebuilt(m, hs)) == Names(m)
    ensures forall k :: 0 <= k < |m| && m[k].name != HEURISTIC ==> Rebuilt(m, hs)[k] == m[k]
    ensures forall k :: 0 <= k < |m| && m[k].name == HEURISTIC ==> Rebuilt(m, hs)[k] == HeuristicOption(m[k], hs)
  {
    var i := IndexOfName(m, HEURISTIC);
    if i < |m| {
      var r := Rebuilt(m, hs);
      assert r == m[i := HeuristicOption(m[i], hs)];
      assert Names(r) == Names(m) by {
        assert forall k :: 0 <= k < |r| ==> Names(r)[k] == Names(m)[k];
      }
      forall k | 0 <= k < |m| && m[k].name == HEURISTIC
        ensures k == i
      {
        assert Names(m)[k] == Names(m)[i];
      }
    }
  }

  /** The combined list names each option once, old names first in their
      order and then the names only the new list has, in its order; each name
      holds its last option in the new list, or else its last in the old one,
      and the "Heuristic" option is rebuilt over the registered heuristics. */
  lemma CombinedMeaning<H>(newOptions: seq<ConfigOption<H>>, oldOptions: seq<ConfigOption<H>>, hs: seq<Registered<H>>)
    ensures Names(Combined(newOptions, oldOptions, hs)) == FirstOccurrences(Names(oldOptions + newOptions))
    ensures Distinct(Names(Combined(newOptions, oldOptions, hs)))
    ensures forall k :: 0 <= k < |Combined(newOptions, oldOptions, hs)| && Combined(newOptions, oldOptions, hs)[k].name != HEURISTIC ==>
      HoldsLast(oldOptions + newOptions, Combined(newOptions, oldOptions, hs)[k])
    ensures forall k :: 0 <= k < |Combined(newOptions, oldOptions, hs)| && Combined(newOptions, oldOptions, hs)[k].name == HEURISTIC ==>
      var i := LastIndexNamed(oldOptions + newOptions, HEURISTIC);
      i.Some? && Combined(newOptions, oldOptions, hs)[k] == HeuristicOption((oldOptions + newOptions)[i.value], hs)
  {
    var all := oldOptions + newOptions;
    PutAllAppend([], oldOptions, newOptions);
    PutAllMeaning(all);
    FirstOccurrencesFacts(Names(all));
    RebuiltInPlace(PutAll([], all), hs);
  }

  /** The option a name ends up with: the new list's last one when the new
      list has that name, the old list's last one otherwise. */
  lemma NewOverridesOld<H>(newOptions: seq<ConfigOption<H>>, oldOptions: seq<ConfigOption<H>>, o: ConfigOption<H>)
    ensures LastIndexNamed(newOptions, o.name).Some? ==> (HoldsLast(oldOptions + newOptions, o) <==> HoldsLast(newOptions, o))
    ensures LastIndexNamed(newOptions, o.name).None? ==> (HoldsLast(oldOptions + newOptions, o) <==> HoldsLast(oldOptions, o))
  {
    LastIndexAppend(oldOptions, newOptions, o.name);
  }

  /* ----- The "Player ID" option handed to the player ----- */

  /** The options the model receives: all but the last "Player ID" one. */
  function WithoutPlayerId<H>(options: seq<ConfigOption<H>>): seq<ConfigOption<H>>
  {
    match LastIndexNamed(options, OPT_PLAYER_ID)
    case None => options
    case Some(i) => options[..i] + options[i + 1..]
  }

  function CountNamed<H>(os: seq<ConfigOption<H>>, name: string): nat
  {
    if os == [] then 0
    else CountNamed(os[..|os| - 1], name) + (if os[|os| - 1].name == name then 1 else 0)
  }

  lemma {:induction false} CountNamedAppend<H>(a: seq<ConfigOption<H>>, b: seq<ConfigOption<H>>, name: string)
    ensures CountNamed(a + b, name) == CountNamed(a, name) + CountNamed(b, name)
    decreases |b|
  {
    if b == [] {
      assert a + b == a;
    } else {
      assert (a + b)[..|a + b| - 1] == a + b[..|b| - 1];
      CountNamedAppend(a, b[..|b| - 1], name);
    }
  }

  /** Taking out the "Player ID" option removes exactly one option of that
      name, when there is one, and keeps every option of every other name. */
  lemma WithoutPlayerIdMeaning<H>(options: seq<ConfigOption<H>>)
    ensures multiset(WithoutPlayerId(options)) + (match LastIndexNamed(options, OPT_PLAYER_ID)
                                                   case None => multiset{}
                                                   case Some(i) => multiset{options[i]}) == multiset(options)
    ensures CountNamed(WithoutPlayerId(options), OPT_PLAYER_ID) + (if LastIndexNamed(options, OPT_PLAYER_ID).Some? then 1 else 0)
      == CountNamed(options, OPT_PLAYER_ID)
    ensures forall n :: n != OPT_PLAYER_ID ==> CountNamed(WithoutPlayerId(options), n) == CountNamed(options, n)
  {
    match LastIndexNamed(options, OPT_PLAYER_ID)
    case None =>
    case Some(i) =>
      assert options == options[..i] + [options[i]] + options[i + 1..];
      forall n
        ensures CountNamed(WithoutPlayerId(options), n) + (if options[i].name == n then 1 else 0) == CountNamed(options, n)
      {
        CountNamedAppend(options[..i], options[i + 1..], n);
        CountNamedAppend(options[..i] + [options[i]], options[i + 1..], n);
        CountNamedAppend(options[..i], [options[i]], n);
        assert CountNamed([options[i]], n) == CountNamed([options[i]][..0], n) + (if options[i].name == n then 1 else 0);
      }
  }

  /* ----- The configuration ----- */

  class HiveGameConfig<H> {
    var player1: HivePlayer?
    var player2: HivePlayer?
    var player1Options: seq<ConfigOption<H>>
    var player2Options: seq<ConfigOption<H>>
    var heuristics: seq<Registered<H>>

    /** Two human players, their own options, and the basic heuristic. */
    constructor (basic: H)
      ensures player1 != null && fresh(player1) && player1.colour == White && !player1.isAI
      ensures player2 != null && fresh(player2) && player2.colour == Black && !player2.isAI
      ensures player1Options == player1.GetOptions<H>() && player2Options == player2.GetOptions<H>()
      ensures heuristics == [Registered(BASIC_HEURISTIC_ID, basic)]
    {
      var p1 := new HivePlayer(White, false);
      var p2 := new HivePlayer(Black, false);
      player1, player2 := p1, p2;
      player1Options := p1.GetOptions<H>();
      player2Options := p2.GetOptions<H>();
      heuristics := [Registered(BASIC_HEURISTIC_ID, basic)];
    }

    /** `getPlayerByColour`: player1 plays White, player2 Black. */
    function GetPlayerByColour(colour: Colour): (p: HivePlayer?)
      reads this
      ensures colour == White ==> p == player1
      ensures colour == Black ==> p == player2
    {
      if colour == White then player1 else player2
    }

    function GetPlayerOptions(colour: Colour): (os: seq<ConfigOption<H>>)
      reads this
      ensures colour == White ==> os == player1Options
      ensures colour == Black ==> os == player2Options
    {
      if colour == White then player1Options else player2Options
    }

    /** `setPlayer`: the colour's player is replaced; given options are
        combined into the colour's list, and without options the list becomes
        the new player's own, which throws when the player is null. */
    method SetPlayer(colour: Colour, player: HivePlayer?, options: Option<seq<ConfigOption<H>>>) returns (outcome: Outcome)
      modifies this
      ensures heuristics == old(heuristics)
      ensures GetPlayerByColour(colour) == player
      ensures colour == White ==> player2 == old(player2) && player2Options == old(player2Options)
      ensures colour == Black ==> player1 == old(player1) && player1Options == old(player1Options)
      ensures options.Some? ==>
        outcome == Done && GetPlayerOptions(colour) == Combined(options.value, old(GetPlayerOptions(colour)), heuristics)
      ensures options.None? && player != null ==> outcome == Done && GetPlayerOptions(colour) == player.GetOptions<H>()
      ensures options.None? && player == null ==>
        outcome == Failed(NullPointer) && GetPlayerOptions(colour) == old(GetPlayerOptions(colour))
    {
      if colour == White {
        player1 := player;
        if options.Some? {
          player1Options := CombineOptions(options.value, player1Options);
        } else if player1 == null {
          return Failed(NullPointer);
        } else {
          player1Options := player1.GetOptions<H>();
        }
      } else {
        player2 := player;
        if options.Some? {
          player2Options := CombineOptions(options.value, player2Options);
        } else if player2 == null {
          return Failed(NullPointer);
        } else {
          player2Options := player2.GetOptions<H>();
        }
      }
      return Done;
    }

    /** `combineOptions`: the old options, then the new ones, put into an
        insertion-ordered map by name; a "Heuristic" entry is then rebuilt. */
    method CombineOptions(newOptions: seq<ConfigOption<H>>, oldOptions: seq<ConfigOption<H>>) returns (r: seq<ConfigOption<H>>)
      ensures r == Combined(newOptions, oldOptions, heuristics)
    {
      var entries: seq<ConfigOption<H>> := [];
      var i := 0;
      while i < |oldOptions|
        invariant 0 <= i <= |oldOptions|
        invariant entries == PutAll([], oldOptions[..i])
      {
        assert oldOptions[..i + 1][..i] == oldOptions[..i];
        entries := Put(entries, oldOptions[i]);
        i := i + 1;
      }
      assert oldOptions[..i] == oldOptions;
      var j := 0;
      while j < |newOptions|
        invariant 0 <= j <= |newOptions|
        invariant entries == PutAll(PutAll([], oldOptions), newOptions[..j])
      {
        assert newOptions[..j + 1][..j] == newOptions[..j];
        entries := Put(entries, newOptions[j]);
        j := j + 1;
      }
      assert newOptions[..j] == newOptions;
      var k := IndexOfName(entries, HEURISTIC);
      if k < |entries| {
        var rebuilt := BuildNewHeuristicOption(entries[k]);
        entries := Put(entries, rebuilt);
      }
      return entries;
    }

    /** `buildNewHeuristicOption`: the option's name, description, editor
        kind and value, declared as an Object, without bounds, offering one
        choice per registered heuristic in the order they were added. */
    method BuildNewHeuristicOption(o: ConfigOption<H>) returns (r: ConfigOption<H>)
      ensures r.name == o.name && r.description == o.description && r.kind == o.kind && r.value == o.value
      ensures r.valueType == ObjectClass && r.minValue == Null && r.maxValue == Null
      ensures r.choices.Some? && |r.choices.value| == |heuristics|
      ensures forall i :: 0 <= i < |heuristics| ==> r.choices.value[i] == ChoiceValue(heuristics[i].id, heuristics[i].heuristic)
      ensures r == HeuristicOption(o, heuristics)
    {
      var choices: seq<OptionValue<H>> := [];
      var i := 0;
      while i < |heuristics|
        invariant 0 <= i <= |heuristics|
        invariant choices == HeuristicChoices(heuristics[..i])
      {
        assert heuristics[..i + 1][..i] == heuristics[..i];
        choices := choices + [ChoiceValue(heuristics[i].id, heuristics[i].heuristic)];
        i := i + 1;
      }
      assert heuristics[..i] == heuristics;
      r := ConfigOption(o.name, o.description, o.kind, ObjectClass, o.value, Null, Null, Some(choices));
    }

    /** `configurePlayerOptions`: the last "Player ID" option goes to the
        player, whose `setOptions` may throw; when the player is an AI whose
        model takes options, the model is handed the others, returned here as
        `forwarded`. The caller's list is a value and stays as it was. */
    method ConfigurePlayerOptions(player: HivePlayer, modelTakesOptions: bool, options: seq<ConfigOption<H>>)
      returns (outcome: Outcome, forwarded: Option<seq<ConfigOption<H>>>)
      modifies player`playerID
      ensures LastIndexNamed(options, OPT_PLAYER_ID).None? ==> outcome == Done && player.playerID == old(player.playerID)
      ensures LastIndexNamed(options, OPT_PLAYER_ID).Some? ==>
        Applied(player.playerID, outcome)
          == ApplyAll(ApplyPlayerOption, old(player.playerID), [options[LastIndexNamed(options, OPT_PLAYER_ID).value]])
      ensures forwarded == if outcome.Done? && player.isAI && modelTakesOptions then Some(WithoutPlayerId(options)) else None
    {
      var found: Option<nat> := None;
      var i := 0;
      while i < |options|
        invariant 0 <= i <= |options|
        invariant found == LastIndexNamed(options[..i], OPT_PLAYER_ID)
      {
        assert options[..i + 1][..i] == options[..i];
        if options[i].name == OPT_PLAYER_ID {
          found := Some(i);
        }
        i := i + 1;
      }
      assert options[..i] == options;
      var local := options;
      outcome := Done;
      if found.Some? {
        outcome := player.SetOptions([options[found.value]]);
        if outcome.Failed? {
          return outcome, None;
        }
        local := options[..found.value] + options[found.value + 1..];
      }
      forwarded := if player.isAI && modelTakesOptions then Some(local) else None;
    }
  }
}
