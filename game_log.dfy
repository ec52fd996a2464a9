/** GameLog.java: the record of a finished game, written out as a row of text
    fields and as a map from names to values. The game identifier (a random
    UUID) and the start and end instants, already formatted as dates, are
    given; the total time is given as the whole seconds of the duration
    between them. */
module GameLogs {
  import opened Common

  /** Java's `/` on `long`: the quotient truncated toward zero. */
  function JavaDiv(a: int, b: int): int
    requires b > 0
  {
    if a >= 0 then a / b else -((-a) / b)
  }

  /** Java's `%` on `long`: the remainder takes the sign of the dividend. */
  function JavaRem(a: int, b: int): int
    requires b > 0
  {
    a - JavaDiv(a, b) * b
  }

  lemma JavaDivision(a: int, b: int)
    requires b > 0
    ensures a >= 0 ==> JavaDiv(a, b) == a / b && JavaRem(a, b) == a % b
    ensures a < 0 ==> JavaDiv(a, b) == -((-a) / b) && JavaRem(a, b) == -((-a) % b)
  {
  }

  datatype Clock = Clock(hours: int, minutes: int, seconds: int)

  /** The hours, minutes and seconds `toStringArray` computes from the total. */
  function DurationParts(total: int): Clock
  {
    Clock(JavaDiv(total, 3600), JavaDiv(JavaRem(total, 3600), 60), JavaRem(total, 60))
  }

  /** The three parts add back up to the total; on a duration that is not
      negative the minutes and seconds lie in 0..59, and on a negative one
      every part is at most zero and above -60 for the minutes and seconds. */
  lemma DurationPartsMeaning(total: int)
    ensures DurationParts(total).hours * 3600 + DurationParts(total).minutes * 60 + DurationParts(total).seconds == total
    ensures total >= 0 ==>
      && DurationParts(total).hours >= 0
      && 0 <= DurationParts(total).minutes < 60
      && 0 <= DurationParts(total).seconds < 60
    ensures total < 0 ==>
      && DurationParts(total).hours <= 0
      && -60 < DurationParts(total).minutes <= 0
      && -60 < DurationParts(total).seconds <= 0
  {
    if total >= 0 {
      SplitNatural(total);
    } else {
      SplitNatural(-total);
      JavaDivision(total, 3600);
      JavaDivision(total, 60);
      JavaDivision(JavaRem(total, 3600), 60);
    }
  }

  lemma SplitNatural(n: nat)
    ensures (n / 3600) * 3600 + ((n % 3600) / 60) * 60 + n % 60 == n
    ensures 0 <= (n % 3600) / 60 < 60
  {
    var h, r := n / 3600, n % 3600;
    var m, s := r / 60, r % 60;
    assert n == h * 3600 + r;
    assert r == m * 60 + s;
    assert n == (h * 60 + m) * 60 + s;
    assert n % 60 == s by {
      ModUnique(n, h * 60 + m, s);
    }
  }

  /** The remainder of a number written as q * 60 + s with 0 <= s < 60. */
  lemma ModUnique(n: int, q: int, s: int)
    requires n == q * 60 + s && 0 <= s < 60
    ensures n % 60 == s
  {
  }

  /* ----- Decimal text ----- */

  function DigitChar(d: int): char
    requires 0 <= d < 10
  {
    (('0' as int) + d) as char
  }

  predicate AllDigits(s: string)
  {
    forall i :: 0 <= i < |s| ==> '0' <= s[i] <= '9'
  }

  /** The decimal digits of n, most significant first, without leading zeros. */
  function Digits(n: nat): (s: string)
    ensures |s| >= 1 && AllDigits(s)
    ensures n > 0 ==> s[0] != '0'
    ensures n < 10 ==> |s| == 1
    ensures 10 <= n < 100 ==> |s| == 2
    decreases n
  {
    if n < 10 then [DigitChar(n)] else Digits(n / 10) + [DigitChar(n % 10)]
  }

  /** The number a string of decimal digits stands for. */
  function DigitsValue(s: string): int
    requires AllDigits(s)
  {
    if s == [] then 0 else DigitsValue(s[..|s| - 1]) * 10 + (s[|s| - 1] as int - '0' as int)
  }

  lemma {:induction false} DigitsRoundTrip(n: nat)
    ensures DigitsValue(Digits(n)) == n
    decreases n
  {
    if n >= 10 {
      DigitsRoundTrip(n / 10);
      var s := Digits(n);
      assert s[..|s| - 1] == Digits(n / 10);
    }
  }

  /** `String.valueOf` of an `int`, and `%d`: a minus sign before the digits
      of a negative number. */
  function DecimalText(n: int): string
  {
    if n < 0 then "-" + Digits(-n) else Digits(n)
  }

  /** `%02d`: the decimal text, widened to two characters by a leading zero. */
  function Pad2(n: int): string
  {
    var t := DecimalText(n);
    if |t| < 2 then "0" + t else t
  }

  /** The two-digit field is at least two characters wide; a number that is
      not negative reads back as itself, in exactly two digits below 100. */
  lemma Pad2Meaning(n: int)
    ensures |Pad2(n)| >= 2
    ensures n >= 0 ==> AllDigits(Pad2(n)) && DigitsValue(Pad2(n)) == n
    ensures 0 <= n < 100 ==> |Pad2(n)| == 2
    ensures n < 0 ==> Pad2(n) == DecimalText(n)
  {
    if n >= 0 {
      DigitsRoundTrip(n);
      if n < 10 {
        var t := Pad2(n);
        assert t[..|t| - 1] == "0";
        assert DigitsValue("0") == 0;
      }
    }
  }

  /** The `HH:MM:SS` field of the row. */
  function DurationText(total: int): string
  {
    var c := DurationParts(total);
    Pad2(c.hours) + ":" + Pad2(c.minutes) + ":" + Pad2(c.seconds)
  }

  /** Reading an `H:MM:SS` text back as a number of seconds. */
  ghost function ReadDuration(t: string): int
    requires |t| >= 7 && AllDigits(t[..|t| - 6]) && AllDigits(t[|t| - 5..|t| - 3]) && AllDigits(t[|t| - 2..])
  {
    DigitsValue(t[..|t| - 6]) * 3600 + DigitsValue(t[|t| - 5..|t| - 3]) * 60 + DigitsValue(t[|t| - 2..])
  }

  /** A duration that is not negative is written as hours of two or more
      digits, then two-digit minutes and seconds, and reads back as itself. */
  lemma DurationTextRoundTrip(total: int)
    requires total >= 0
    ensures |DurationText(total)| >= 8
    ensures DurationText(total)[|DurationText(total)| - 6] == ':' && DurationText(total)[|DurationText(total)| - 3] == ':'
    ensures AllDigits(DurationText(total)[..|DurationText(total)| - 6])
    ensures AllDigits(DurationText(total)[|DurationText(total)| - 5..|DurationText(total)| - 3])
    ensures AllDigits(DurationText(total)[|DurationText(total)| - 2..])
    ensures ReadDuration(DurationText(total)) == total
  {
    var c := DurationParts(total);
    DurationPartsMeaning(total);
    Pad2Meaning(c.hours);
    Pad2Meaning(c.minutes);
    Pad2Meaning(c.seconds);
    var hh, mm, ss := Pad2(c.hours), Pad2(c.minutes), Pad2(c.seconds);
    var t := DurationText(total);
    assert t == hh + ":" + mm + ":" + ss;
    assert t[..|t| - 6] == hh;
    assert t[|t| - 5..|t| - 3] == mm;
    assert t[|t| - 2..] == ss;
  }

  /* ----- The log and its two written forms ----- */

  /** A player of the game: its identifier, whether it is an AI, the log map
      of its model when the model is loggable, and its result as text. */
  datatype PlayerResult<L> = PlayerResult(playerID: string, isAI: bool, modelLog: Option<L>, result: string)

  /** The fields of a GameLog; `results` lists the players in the order the
      result map yields them. */
  datatype GameLog<L> = GameLog(
    gameID: string,
    startText: string,
    endText: string,
    totalSeconds: int,
    totalTurns: Int32,
    results: seq<PlayerResult<L>>)

  const NOT_ENABLED := "logging not enabled"

  /** What `toMap` records for an AI player. */
  datatype PlayerLog<L> = ModelLog(log: L) | Message(text: string)

  /** The map `toMap` returns: "gameID" and "players". */
  datatype LogMap<L> = LogMap(gameID: string, players: map<string, PlayerLog<L>>)

  function PlayerEntry<L>(p: PlayerResult<L>): PlayerLog<L>
  {
    if p.modelLog.Some? then ModelLog(p.modelLog.value) else Message(NOT_ENABLED)
  }

  /** The "players" map: the AI players only, a later one of the same
      identifier replacing an earlier one. */
  function AIPlayers<L>(rs: seq<PlayerResult<L>>): map<string, PlayerLog<L>>
  {
    if rs == [] then map[]
    else if rs[|rs| - 1].isAI then AIPlayers(rs[..|rs| - 1])[rs[|rs| - 1].playerID := PlayerEntry(rs[|rs| - 1])]
    else AIPlayers(rs[..|rs| - 1])
  }

  /** The "players" map holds exactly the identifiers of AI players, each with
      the entry of the last AI player of that identifier. */
  lemma AIPlayersMeaning<L>(rs: seq<PlayerResult<L>>)
    ensures forall id :: id in AIPlayers(rs) <==> exists i :: 0 <= i < |rs| && rs[i].isAI && rs[i].playerID == id
    ensures forall i :: 0 <= i < |rs| && rs[i].isAI && LastAI(rs, i) ==> AIPlayers(rs)[rs[i].playerID] == PlayerEntry(rs[i])
  {
    AIPlayersKeys(rs);
    AIPlayersValues(rs);
  }

  lemma {:induction false} AIPlayersKeys<L>(rs: seq<PlayerResult<L>>)
    ensures forall id :: id in AIPlayers(rs) <==> exists i :: 0 <= i < |rs| && rs[i].isAI && rs[i].playerID == id
    decreases |rs|
  {
    if rs != [] {
      var init := rs[..|rs| - 1];
      AIPlayersKeys(init);
      forall id
        ensures id in AIPlayers(rs) <==> exists i :: 0 <= i < |rs| && rs[i].isAI && rs[i].playerID == id
      {
        if id in AIPlayers(init) {
          var i :| 0 <= i < |init| && init[i].isAI && init[i].playerID == id;
          assert rs[i] == init[i];
        }
        if exists i :: 0 <= i < |rs| && rs[i].isAI && rs[i].playerID == id {
          var i :| 0 <= i < |rs| && rs[i].isAI && rs[i].playerID == id;
          if i < |init| {
            assert init[i] == rs[i];
          }
        }
      }
    }
  }

  lemma {:induction false} AIPlayersValues<L>(rs: seq<PlayerResult<L>>)
    ensures forall i :: 0 <= i < |rs| && rs[i].isAI && LastAI(rs, i) ==> rs[i].playerID in AIPlayers(rs) && AIPlayers(rs)[rs[i].playerID] == PlayerEntry(rs[i])
    decreases |rs|
  {
    if rs != [] {
      var init := rs[..|rs| - 1];
      AIPlayersValues(init);
      forall i | 0 <= i < |rs| && rs[i].isAI && LastAI(rs, i)
        ensures rs[i].playerID in AIPlayers(rs) && AIPlayers(rs)[rs[i].playerID] == PlayerEntry(rs[i])
      {
        if i < |init| {
          assert init[i] == rs[i];
          assert LastAI(init, i);
        }
      }
    }
  }

  /** No AI player after position i has the identifier of the one at i. */
  ghost predicate LastAI<L>(rs: seq<PlayerResult<L>>, i: int)
    requires 0 <= i < |rs|
  {
    forall j :: i < j < |rs| && rs[j].isAI ==> rs[j].playerID != rs[i].playerID
  }

  /** `toStringArray`: identifier, start, end, duration and turns, then each
      player's identifier followed by its result. */
  method ToStringArray<L>(log: GameLog<L>) returns (row: seq<string>)
    ensures |row| == 5 + 2 * |log.results|
    ensures row[..5] == [log.gameID, log.startText, log.endText, DurationText(log.totalSeconds), DecimalText(log.totalTurns as int)]
    ensures forall i :: 0 <= i < |log.results| ==>
      row[5 + 2 * i] == log.results[i].playerID && row[6 + 2 * i] == log.results[i].result
  {
    var parts := DurationParts(log.totalSeconds);
    var duration := Pad2(parts.hours) + ":" + Pad2(parts.minutes) + ":" + Pad2(parts.seconds);
    var head := [log.gameID, log.startText, log.endText, duration, DecimalText(log.totalTurns as int)];
    var tail := PlayerFields(log.results);
    row := head + tail;
    assert row[..5] == head;
    forall i | 0 <= i < |log.results|
      ensures row[5 + 2 * i] == log.results[i].playerID && row[6 + 2 * i] == log.results[i].result
    {
      assert row[5 + 2 * i] == tail[2 * i] && row[6 + 2 * i] == tail[2 * i + 1];
    }
  }

  /** The loop of `toStringArray` over the players. */
  method PlayerFields<L>(results: seq<PlayerResult<L>>) returns (fields: seq<string>)
    ensures |fields| == 2 * |results|
    ensures forall i :: 0 <= i < |results| ==> fields[2 * i] == results[i].playerID && fields[2 * i + 1] == results[i].result
  {
    fields := [];
    var k := 0;
    while k < |results|
      invariant 0 <= k <= |results|
      invariant |fields| == 2 * k
      invariant forall i :: 0 <= i < k ==> fields[2 * i] == results[i].playerID && fields[2 * i + 1] == results[i].result
    {
      ghost var before := fields;
      fields := fields + [results[k].playerID, results[k].result];
      assert forall i :: 0 <= i < 2 * k ==> fields[i] == before[i];
      k := k + 1;
    }
  }

  /** `toMap`: the game's identifier and the log entries of its AI players. */
  method ToMap<L>(log: GameLog<L>) returns (r: LogMap<L>)
    ensures r.gameID == log.gameID
    ensures r.players == AIPlayers(log.results)
    ensures forall id :: id in r.players <==>
      exists i :: 0 <= i < |log.results| && log.results[i].isAI && log.results[i].playerID == id
  {
    var players: map<string, PlayerLog<L>> := map[];
    var k := 0;
    while k < |log.results|
      invariant 0 <= k <= |log.results|
      invariant players == AIPlayers(log.results[..k])
    {
      assert log.results[..k + 1][..k] == log.results[..k];
      var p := log.results[k];
      if p.isAI {
        if p.modelLog.Some? {
          players := players[p.playerID := ModelLog(p.modelLog.value)];
        } else {
          players := players[p.playerID := Message(NOT_ENABLED)];
        }
      }
      k := k + 1;
    }
    assert log.results[..k] == log.results;
    AIPlayersMeaning(log.results);
    r := LogMap(log.gameID, players);
  }
}
