/**
 The view of GuessTheFlag as an object: its seven session fields are updated
 in place by the three actions behind the flags and the two alerts. Each
 action is proved against the value-level transition of module Quiz, and the
 session invariant `Valid()` keeps every index the view uses in range.
 */
module GuessTheFlag {
  import opened Quiz

  class ContentView {
    var countries: seq<string>
    var correctAnswer: int
    var totalScore: int
    var questionsAsked: int
    var showingScore: bool
    var newGame: bool
    var scoreTitle: string

    /** True until the first reset: the first game starts from all eleven
        countries, every later one from ten. */
    ghost var firstGame: bool

    /** The session fields as one value. */
    function State(): QuizState
      reads this
    {
      QuizState(countries, correctAnswer, totalScore, questionsAsked, showingScore, newGame, scoreTitle)
    }

    ghost predicate Valid()
      reads this
    {
      Inv(State(), firstGame)
    }

    /** The initial field values: `allCounties.shuffled()` is `shuffled` and
        `Int.random(in: 0...2)` is `k`. */
    constructor (shuffled: seq<string>, k: int)
      requires IsShuffleOf(shuffled, AllCountries())
      requires 0 <= k <= 2
      ensures Valid() && firstGame
      ensures State() == Initial(shuffled, k)
      ensures |countries| == 11 && questionsAsked == 1 && totalScore == 0
      ensures !showingScore && !newGame && scoreTitle == ""
    {
      countries := shuffled;
      correctAnswer := k;
      totalScore := 0;
      questionsAsked := 1;
      showingScore := false;
      newGame := false;
      scoreTitle := "";
      firstGame := true;
      new;
      assert State() == Initial(shuffled, k);
      InitialKeepsInv(shuffled, k);
    }

    /** The flag at `number` (0, 1 or 2) was tapped. */
    method FlagTapped(number: int)
      requires Valid()
      requires 0 <= number <= 2
      modifies this
      ensures Valid() && firstGame == old(firstGame)
      ensures State() == Tap(old(State()), number)
      ensures number == correctAnswer ==> totalScore == old(totalScore) + 1 && scoreTitle == "Correct."
      ensures number != correctAnswer ==> totalScore == old(totalScore)
      ensures number != correctAnswer && countries[number] in ["UK", "US"] ==>
                scoreTitle == "Wrong! That is a a flag of the " + countries[number]
      ensures number != correctAnswer && countries[number] !in ["UK", "US"] ==>
                scoreTitle == "Wrong! That is a a flag of " + countries[number]
      ensures old(questionsAsked) == 8 ==> newGame && showingScore == old(showingScore)
      ensures old(questionsAsked) != 8 ==> showingScore && newGame == old(newGame)
      ensures countries == old(countries) && correctAnswer == old(correctAnswer)
      ensures questionsAsked == old(questionsAsked)
    {
      TapKeepsInv(State(), firstGame, number);
      if number == correctAnswer {
        totalScore := totalScore + 1;
        scoreTitle := "Correct.";
      } else {
        var theirAnswer := countries[number];
        scoreTitle := WrongTitle(theirAnswer);
      }
      if questionsAsked == LastQuestion {
        newGame := true;
      } else {
        showingScore := true;
      }
    }

    /** The "Continue" action: drop the country just asked, reshuffle the
        rest into `shuffled`, pick the new flag to find `k`, advance the round.
        The view offers it only after a tap before the last round, and then
        the invariant is kept. */
    method AskQuestion(shuffled: seq<string>, k: int)
      requires CanAsk(State(), shuffled, k)
      modifies this
      ensures State() == Ask(old(State()), shuffled, k)
      ensures old(Valid()) && old(questionsAsked) < LastQuestion ==> Valid()
      ensures firstGame == old(firstGame)
      ensures |countries| == |old(countries)| - 1
      ensures multiset(countries) == multiset(old(countries)) - multiset{old(countries)[old(correctAnswer)]}
      ensures old(Valid()) ==> old(countries)[old(correctAnswer)] !in countries
      ensures 0 <= correctAnswer <= 2 && questionsAsked == old(questionsAsked) + 1
      ensures totalScore == old(totalScore) && scoreTitle == old(scoreTitle)
      ensures showingScore == old(showingScore) && newGame == old(newGame)
    {
      ghost var before := State();
      countries := RemoveAt(countries, correctAnswer);
      ShuffleKeepsLength(shuffled, countries);
      countries := shuffled;
      correctAnswer := k;
      questionsAsked := questionsAsked + 1;
      if Inv(before, firstGame) {
        AskReplacesAnswer(before, firstGame, shuffled, k);
        if before.questionsAsked < LastQuestion {
          AskKeepsInv(before, firstGame, shuffled, k);
        }
      }
    }

    /** The "Reset" action: zero the counters, restore the reference pool and
        ask the first question of a new game. The question removes the
        reference pool's entry at the old correct index. */
    method ResetGame(shuffled: seq<string>, k: int)
      requires 0 <= correctAnswer < |AllCountries()|
      requires IsShuffleOf(shuffled, RemoveAt(AllCountries(), correctAnswer))
      requires 0 <= k <= 2
      modifies this
      ensures Valid() && !firstGame
      ensures State() == Reset(old(State()), shuffled, k)
      ensures totalScore == 0 && questionsAsked == 1
      ensures |countries| == 10
      ensures forall c :: c in countries <==> IsCountry(c) && c != AllCountries()[old(correctAnswer)]
      ensures 0 <= correctAnswer <= 2
      ensures showingScore == old(showingScore) && newGame == old(newGame) && scoreTitle == old(scoreTitle)
    {
      ghost var before := State();
      ResetRestoresPool(before, shuffled, k);
      totalScore := 0;
      questionsAsked := 0;
      countries := AllCountries();
      firstGame := false;
      assert State() == before.(totalScore := 0, questionsAsked := 0, countries := AllCountries());
      AskQuestion(shuffled, k);
      assert State() == Reset(before, shuffled, k);
    }
  }
}
