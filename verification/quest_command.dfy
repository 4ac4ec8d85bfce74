/** The "quest" chat command (Library/Message/Commands/QuestCommand.cs): its argument is
    a comma-separated list of quest ids. */
module QuestCommand {
  import opened Wrappers
  import opened Text
  import Int32

  /** What QuestCommandProcess does with its argument. */
  datatype QuestOutcome =
    | InvalidQuestId                                          // "Invalid Quest ID" goes to chat
    | ShowQuests(questIds: seq<int>, loadedQuestIds: seq<int>) // UIQuest.ShowQuests(questIds, questIds)

  /** Select: each piece trimmed and read by int.TryParse, null where that fails. */
  function Attempts(pieces: seq<string>): (r: seq<Option<int>>)
    ensures |r| == |pieces|
  {
    seq(|pieces|, i requires 0 <= i < |pieces| => Int32.TryParse(Trim(pieces[i])))
  }

  /** The ids QuestCommandProcess collects from its argument. */
  function QuestIds(argument: string): (ids: seq<int>)
    ensures |ids| <= |Split(argument, ',')|
    ensures forall k | 0 <= k < |ids| :: Int32.MinValue <= ids[k] <= Int32.MaxValue
  {
    var attempts := Attempts(Split(argument, ','));
    SomesEmpty(attempts);
    AttemptsInRange(Split(argument, ','));
    SomesInRange(attempts);
    Somes(attempts)
  }

  /** A piece without a comma contributes its id when it parses and nothing otherwise. */
  lemma QuestIdsPiece(piece: string)
    requires ',' !in piece
    ensures var attempt := Int32.TryParse(Trim(piece));
            QuestIds(piece) == (if attempt.Some? then [attempt.value] else [])
  {
    IndexOfAbsent(piece, ',');
    assert Split(piece, ',') == [piece];
    var attempts := Attempts([piece]);
    assert attempts == [Int32.TryParse(Trim(piece))];
    assert attempts[1..] == [];
    assert Somes(attempts[1..]) == [];
    assert QuestIds(piece) == Somes(attempts);
  }

  /** The ids of two comma-separated runs are those of the first run followed by those
      of the second: ids are kept in the order of their pieces. */
  lemma QuestIdsAppend(a: string, b: string)
    ensures QuestIds(a + "," + b) == QuestIds(a) + QuestIds(b)
  {
    var x, y := Split(a, ','), Split(b, ',');
    assert Split(a + "," + b, ',') == x + y by {
      assert a + "," + b == a + [','] + b;
      SplitAppend(a, b, ',');
    }
    AttemptsAppend(x, y);
    SomesAppend(Attempts(x), Attempts(y));
  }

  lemma AttemptsAppend(x: seq<string>, y: seq<string>)
    ensures Attempts(x + y) == Attempts(x) + Attempts(y)
  {
    forall i | 0 <= i < |x| + |y| ensures Attempts(x + y)[i] == (Attempts(x) + Attempts(y))[i] {
      if i < |x| {
        assert (x + y)[i] == x[i];
      } else {
        assert (x + y)[i] == y[i - |x|];
      }
    }
  }

  /** QuestCommandProcess: split on ',', keep what parses; with no id at all the command
      reports an invalid id and shows nothing, otherwise the one list is passed as both
      arguments of ShowQuests. */
  function QuestCommandProcess(argument: string): (r: QuestOutcome)
    ensures r == InvalidQuestId <==> AllNone(Attempts(Split(argument, ',')))
    ensures r.ShowQuests? ==> r.questIds == r.loadedQuestIds == QuestIds(argument)
    ensures r.ShowQuests? ==> 0 < |r.questIds| <= |Split(argument, ',')|
    ensures r.ShowQuests? ==> forall k | 0 <= k < |r.questIds| :: Int32.MinValue <= r.questIds[k] <= Int32.MaxValue
  {
    var attempts := Attempts(Split(argument, ','));
    var ids := Somes(attempts);
    AttemptsInRange(Split(argument, ','));
    SomesInRange(attempts);
    SomesEmpty(attempts);
    if ids == [] then InvalidQuestId else ShowQuests(ids, ids)
  }

  predicate InRange(attempts: seq<Option<int>>) {
    forall i | 0 <= i < |attempts| :: attempts[i].Some? ==> Int32.MinValue <= attempts[i].value <= Int32.MaxValue
  }

  lemma AttemptsInRange(pieces: seq<string>)
    ensures InRange(Attempts(pieces))
  {
    forall i | 0 <= i < |pieces| && Attempts(pieces)[i].Some?
      ensures Int32.MinValue <= Attempts(pieces)[i].value <= Int32.MaxValue
    {
      var r := Int32.TryParse(Trim(pieces[i]));
      assert Attempts(pieces)[i] == r;
    }
  }

  /** Every kept id is an Int32. */
  lemma {:induction false} SomesInRange(attempts: seq<Option<int>>)
    requires InRange(attempts)
    ensures forall k | 0 <= k < |Somes(attempts)| :: Int32.MinValue <= Somes(attempts)[k] <= Int32.MaxValue
    decreases |attempts|
  {
    if attempts != [] {
      assert InRange(attempts[1..]) by {
        forall i | 0 <= i < |attempts[1..]| ensures attempts[1..][i] == attempts[i + 1] { }
      }
      SomesInRange(attempts[1..]);
    }
  }

  /** An empty argument splits into one empty piece, which does not parse. */
  lemma EmptyArgument()
    ensures QuestCommandProcess("") == InvalidQuestId
  {
    assert Split("", ',') == [""];
    assert Trim("") == "";
    assert Int32.TryParse("") == None;
  }

  /** The decimal forms of the ids, comma-separated. */
  function FormatIds(ids: seq<int>): string
    requires ids != []
  {
    Join(seq(|ids|, i requires 0 <= i < |ids| => Int32.Format(ids[i])), ',')
  }

  /** The argument a user types for a list of ids in range is read back as that very
      list, in the same order. */
  lemma QuestRoundTrip(ids: seq<int>)
    requires ids != []
    requires forall k | 0 <= k < |ids| :: Int32.MinValue <= ids[k] <= Int32.MaxValue
    ensures QuestCommandProcess(FormatIds(ids)) == ShowQuests(ids, ids)
  {
    var pieces := seq(|ids|, i requires 0 <= i < |ids| => Int32.Format(ids[i]));
    SplitJoin(pieces, ',');
    var attempts := Attempts(pieces);
    forall i | 0 <= i < |ids| ensures attempts[i] == Some(ids[i]) {
      TrimTrimmed(pieces[i]);
      Int32.FormatParse(ids[i]);
    }
    SomesAllPresent(attempts, ids);
  }
}
