/**
 The state of the leaderboard page: the committed rankings and the two
 form fields, the button handler that adds an entry, and the two
 onChange handlers that overwrite the fields.
 */
module Home {
  import opened JsText
  import opened Ranking

  /** The five entries the page starts with. */
  function Seed(): seq<Entry>
  {
    [ Entry(1, "김철수", 95, 1),
      Entry(2, "이영희", 88, 2),
      Entry(3, "박민수", 82, 3),
      Entry(4, "정수진", 78, 4),
      Entry(5, "최지원", 75, 5) ]
  }

  /** The seed is already in board order: five entries, scores 95, 88, 82,
      78, 75, ranked 1 to 5. */
  lemma SeedIsBoard()
    ensures |Seed()| == 5
    ensures Sorted(Seed()) && Ranked(Seed())
    ensures forall i :: 0 <= i < 5 ==> Seed()[i].score == [95, 88, 82, 78, 75][i]
  {
  }

  /** The add button's checks: a name and a score text that are not blank
      after trimming, and a score text parseInt does not turn into NaN. */
  predicate AcceptsSubmission(name: string, scoreText: string)
  {
    !IsBlank(name) && !IsBlank(scoreText) && ParseIntPrefix(scoreText).Some?
  }

  /** The blank test on the score text never decides anything: a
      submission is accepted exactly when the name is not blank and the
      score text parses. */
  lemma SubmissionRefusals(name: string, scoreText: string)
    ensures AcceptsSubmission(name, scoreText)
        <==> !IsBlank(name) && ParseIntPrefix(scoreText).Some?
  {
    if ParseIntPrefix(scoreText).Some? {
      ParsedIsNotBlank(scoreText);
    }
  }

  /** The entry built from an accepted submission: the name as typed, the
      parsed score, an id from the clock and a placeholder rank. */
  function NewEntry(now: int, name: string, scoreText: string): (e: Entry)
    requires ParseIntPrefix(scoreText).Some?
    ensures e.name == name && e.id == now && e.rank == 0
    ensures Some(e.score) == ParseIntPrefix(scoreText)
  {
    Entry(now, name, ParseIntPrefix(scoreText).value, 0)
  }

  class Store {
    var rankings: seq<Entry>
    var newName: string
    var newScore: string

    /** What every completed operation keeps: the board sorted by score and
        ranked 1..n by position. */
    ghost predicate Valid()
      reads this
    {
      Sorted(rankings) && Ranked(rankings)
    }

    constructor ()
      ensures Valid()
      ensures rankings == Seed() && newName == "" && newScore == ""
    {
      rankings := Seed();
      newName := "";
      newScore := "";
      SeedIsBoard();
    }

    /** onChange of the name field. */
    method SetNewName(text: string)
      modifies this
      ensures newName == text
      ensures rankings == old(rankings) && newScore == old(newScore)
    {
      newName := text;
    }

    /** onChange of the score field. */
    method SetNewScore(text: string)
      modifies this
      ensures newScore == text
      ensures rankings == old(rankings) && newName == old(newName)
    {
      newScore := text;
    }

    /** The add button. `now` stands for Date.now(), the new entry's id.
        A refused submission changes nothing; an accepted one appends the
        entry, re-sorts, re-ranks and clears both fields. */
    method AddEntry(now: int)
      modifies this
      ensures !AcceptsSubmission(old(newName), old(newScore)) ==>
        rankings == old(rankings) && newName == old(newName) && newScore == old(newScore)
      ensures AcceptsSubmission(old(newName), old(newScore)) ==>
        && rankings == Accept(old(rankings), NewEntry(now, old(newName), old(newScore)))
        && newName == "" && newScore == ""
      ensures AcceptsSubmission(old(newName), old(newScore)) ==> Valid()
      ensures old(Valid()) ==> Valid()
    {
      if IsBlank(newName) || IsBlank(newScore) {
        return;
      }
      var score := ParseIntPrefix(newScore);
      if score.None? {
        return;
      }
      var entry := NewEntry(now, newName, newScore);
      AcceptShape(rankings, entry);
      rankings := Accept(rankings, entry);
      newName := "";
      newScore := "";
    }
  }

  lemma {:induction false} HanInsertionPoint()
    ensures InsertionPoint(Seed(), 90) == 1
  {
    var s := Seed();
    assert s[1..][0].score < 90;
    assert InsertionPoint(s[1..], 90) == 0;
  }

  lemma HanAccepted()
    ensures AcceptsSubmission("Han", "90")
    ensures ParseIntPrefix("90") == Some(90)
  {
    ParseNinety();
    SubmissionRefusals("Han", "90");
    HanIsNotBlank();
  }

  lemma ParseNinety()
    ensures ParseIntPrefix("90") == Some(90)
  {
    assert NatToDecimal(9) == "9";
    assert NatToDecimal(90) == "90";
    assert IntToDecimal(90) == "90";
    ParseDecimalRoundTrip("", 90, "");
    assert "" + IntToDecimal(90) + "" == "90";
  }

  lemma HanIsNotBlank()
    ensures !IsBlank("Han")
  {
    BlankIffAllSpace("Han");
    assert !IsSpace("Han"[0]);
  }

  /** The board after adding Han with 90 to the seed. */
  lemma HanBoard(now: int)
    ensures |Accept(Seed(), Entry(now, "Han", 90, 0))| == 6
    ensures forall i :: 0 <= i < 6 ==>
      Accept(Seed(), Entry(now, "Han", 90, 0))[i].score == [95, 90, 88, 82, 78, 75][i]
    ensures Accept(Seed(), Entry(now, "Han", 90, 0))[1] == Entry(now, "Han", 90, 2)
  {
    var seed := Seed();
    var e := Entry(now, "Han", 90, 0);
    SeedIsBoard();
    AcceptIntoRanked(seed, e);
    HanInsertionPoint();
    var board := Accept(seed, e);
    assert board[0] == seed[0];
    assert board[2].score == seed[1].score;
    assert board[3].score == seed[2].score;
    assert board[4].score == seed[3].score;
    assert board[5].score == seed[4].score;
  }

  /** The statistics after adding Han with 90 to the seed. */
  lemma HanStats(now: int)
    ensures Count(Accept(Seed(), Entry(now, "Han", 90, 0))) == 6
    ensures MaxScore(Accept(Seed(), Entry(now, "Han", 90, 0))) == 95
    ensures AverageScore(Accept(Seed(), Entry(now, "Han", 90, 0))) == 85
  {
    var seed := Seed();
    var e := Entry(now, "Han", 90, 0);
    AcceptStats(seed, e);
    SeedTotals();
    var r := Accept(seed, e);
    assert |r| == 6 && SumScores(r) == 508;
  }

  lemma SeedTotals()
    ensures SumScores(Seed()) == 418
    ensures MaxScore(Seed()) == 95
  {
    var seed := Seed();
    assert seed[..1][..0] == [];
    assert seed[..2][..1] == seed[..1];
    assert seed[..3][..2] == seed[..2];
    assert seed[..4][..3] == seed[..3];
    assert seed[..5][..4] == seed[..4];
    assert SumScores(seed[..1]) == 95;
    assert SumScores(seed[..2]) == 183;
    assert SumScores(seed[..3]) == 265;
    assert SumScores(seed[..4]) == 343;
    assert seed[..5] == seed;
    SeedIsBoard();
    assert seed[0].score == 95;
  }

  /** Adding "Han" with "90" to the seed: six entries, scores 95, 90, 88,
      82, 78, 75, Han ranked second, and the statistics 6, 95 and 85. */
  method HanScenario(now: int) returns (board: seq<Entry>, count: nat, max: int, average: int)
    ensures |board| == 6
    ensures forall i :: 0 <= i < 6 ==> board[i].score == [95, 90, 88, 82, 78, 75][i]
    ensures board[1] == Entry(now, "Han", 90, 2)
    ensures count == 6 && max == 95 && average == 85
  {
    var store := new Store();
    store.SetNewName("Han");
    store.SetNewScore("90");
    HanAccepted();
    store.AddEntry(now);
    assert NewEntry(now, "Han", "90") == Entry(now, "Han", 90, 0);
    board := store.rankings;
    HanBoard(now);
    HanStats(now);
    count, max, average := Count(board), MaxScore(board), AverageScore(board);
  }

  /** Two refused submissions leave the store as it was: a blank name with
      "50" keeps the score text, and "Kim" with "abc" keeps the name. */
  method RefusalScenario(now: int)
    returns (count1: nat, name1: string, score1: string, count2: nat, name2: string, score2: string)
    ensures count1 == 5 && name1 == "" && score1 == "50"
    ensures count2 == 5 && name2 == "Kim" && score2 == "abc"
  {
    var store := new Store();
    store.SetNewName("");
    store.SetNewScore("50");
    assert IsBlank("");
    store.AddEntry(now);
    count1, name1, score1 := |store.rankings|, store.newName, store.newScore;
    store.SetNewName("Kim");
    store.SetNewScore("abc");
    assert ParseIntPrefix("abc") == None by {
      NoDigitIsNaN("abc");
    }
    store.AddEntry(now);
    count2, name2, score2 := |store.rankings|, store.newName, store.newScore;
  }
}
