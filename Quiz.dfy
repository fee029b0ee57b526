/**
 This module describes the quiz session of GuessTheFlag as values: the
 reference list of countries, the session record (the seven fields the view
 keeps as state), the three transitions the view performs on it and the
 invariant that keeps every index the view uses in range.

 Randomness is a parameter: where the app shuffles, the caller supplies the
 shuffled sequence (any permutation of the pool), and where it draws
 `Int.random(in: 0...2)`, the caller supplies the drawn index.
 */
module Quiz {

  /** The name at position `i` of the reference pool `allCounties`. */
  function CountryAt(i: int): string
  {
    if i == 0 then "Estonia"
    else if i == 1 then "France"
    else if i == 2 then "Germany"
    else if i == 3 then "Ireland"
    else if i == 4 then "Italy"
    else if i == 5 then "Nigeria"
    else if i == 6 then "Poland"
    else if i == 7 then "Spain"
    else if i == 8 then "UK"
    else if i == 9 then "Ukraine"
    else "US"
  }

  /** The fixed reference pool of eleven country names (`allCounties`),
      built position by position; `AllCountriesListed` gives it as a list.
      The pool is a function over `CountryAt` rather than a sequence-literal
      constant for two reasons: Dafny 4.11 crashes on a constant defined by a
      sequence comprehension, and a literal of eleven strings makes every proof
      that mentions the pool unfold all of them, which outgrows the solver's
      budget. `CountryAt`'s final `else` covers only index 10 here. */
  function AllCountries(): seq<string>
  {
    seq(11, CountryAt)
  }

  /** The countries whose name takes a definite article in the feedback. */
  const CountriesNeedThe: seq<string> := ["UK", "US"]

  /** The round whose tap ends the game. */
  const LastQuestion: int := 8

  /** The session fields of the view, in declaration order. */
  datatype QuizState = QuizState(
    countries: seq<string>,      // the working pool; the first three are displayed
    correctAnswer: int,          // index of the flag to find
    totalScore: int,
    questionsAsked: int,         // the number of the current round
    showingScore: bool,          // the "Continue" alert is requested
    newGame: bool,               // the "Game over" alert is requested
    scoreTitle: string)          // feedback for the last tap

  predicate NoDuplicates(s: seq<string>)
  {
    forall i, j :: 0 <= i < j < |s| ==> s[i] != s[j]
  }

  /** `c` is one of the reference countries. */
  predicate IsCountry(c: string)
  {
    c in AllCountries()
  }

  /** `s` holds distinct countries of the reference pool. */
  predicate IsPool(s: seq<string>)
  {
    NoDuplicates(s) && forall c :: c in s ==> IsCountry(c)
  }

  /** `shuffled` holds exactly the elements of `pool`, in some order. */
  predicate IsShuffleOf(shuffled: seq<string>, pool: seq<string>)
  {
    multiset(shuffled) == multiset(pool)
  }

  /** `s` after Swift's `remove(at: i)`: the element at `i` is dropped and the
      later elements move down by one. */
  function RemoveAt(s: seq<string>, i: int): (r: seq<string>)
    requires 0 <= i < |s|
    ensures |r| == |s| - 1
    ensures forall j :: 0 <= j < i ==> r[j] == s[j]
    ensures forall j :: i <= j < |r| ==> r[j] == s[j + 1]
    ensures multiset(r) == multiset(s) - multiset{s[i]}
  {
    assert s == s[..i] + [s[i]] + s[i + 1..];
    s[..i] + s[i + 1..]
  }

  /** The feedback for a wrong tap on the flag of `answer`. */
  function WrongTitle(answer: string): string
  {
    if answer in CountriesNeedThe then "Wrong! That is a a flag of the " + answer
    else "Wrong! That is a a flag of " + answer
  }

  /** Recovers the country a wrong-tap message names: the text after the
      common prefix, without a leading "the ". */
  function NamedCountry(title: string): string
  {
    var prefix := "Wrong! That is a a flag of ";
    if |title| < |prefix| || title[..|prefix|] != prefix then ""
    else
      var rest := title[|prefix|..];
      if |rest| >= 4 && rest[..4] == "the " then rest[4..] else rest
  }

  /** The session as the view creates it: the whole pool shuffled, a random
      index among the three displayed flags, round 1, no score. */
  function Initial(shuffled: seq<string>, k: int): (q: QuizState)
    requires IsShuffleOf(shuffled, AllCountries())
    requires 0 <= k <= 2
  {
    QuizState(shuffled, k, 0, 1, false, false, "")
  }

  /** `flagTapped(number)`: score the guess, set the feedback, and request the
      "Game over" alert on the last round or the "Continue" alert otherwise.
      The pool is indexed only on a wrong guess. */
  function Tap(q: QuizState, number: int): (r: QuizState)
    requires number == q.correctAnswer || 0 <= number < |q.countries|
  {
    var scored :=
      if number == q.correctAnswer then q.(totalScore := q.totalScore + 1, scoreTitle := "Correct.")
      else q.(scoreTitle := WrongTitle(q.countries[number]));
    if q.questionsAsked == LastQuestion then scored.(newGame := true)
    else scored.(showingScore := true)
  }

  /** What `askQuestion()` needs: the correct index is in the pool, `shuffled`
      reorders the pool without that entry and `k` is in 0..2. */
  predicate CanAsk(q: QuizState, shuffled: seq<string>, k: int)
  {
    && 0 <= q.correctAnswer < |q.countries|
    && IsShuffleOf(shuffled, RemoveAt(q.countries, q.correctAnswer))
    && 0 <= k <= 2
  }

  /** `askQuestion()`: drop the country just asked, reshuffle (the caller's
      `shuffled`), draw a new correct index `k` and advance the round. */
  function Ask(q: QuizState, shuffled: seq<string>, k: int): (r: QuizState)
    requires CanAsk(q, shuffled, k)
  {
    q.(countries := shuffled, correctAnswer := k, questionsAsked := q.questionsAsked + 1)
  }

  /** `resetGame()`: zero the counters, restore the unshuffled reference pool
      and then ask a question. That question removes the reference pool's
      element at the OLD correct index. */
  function Reset(q: QuizState, shuffled: seq<string>, k: int): (r: QuizState)
    requires 0 <= q.correctAnswer < |AllCountries()|
    requires IsShuffleOf(shuffled, RemoveAt(AllCountries(), q.correctAnswer))
    requires 0 <= k <= 2
  {
    Ask(q.(totalScore := 0, questionsAsked := 0, countries := AllCountries()), shuffled, k)
  }

  /** The pool size plus the round counter is 12 in the first game (11
      countries, round 1) and 11 after any reset (10 countries, round 1). */
  function PoolBudget(firstGame: bool): int
  {
    if firstGame then 12 else 11
  }

  /** The session invariant: the pool holds distinct reference countries,
      the round is between 1 and 8, the pool shrinks in step with the round,
      the correct index points at a displayed flag and the score is not negative. */
  ghost predicate Inv(q: QuizState, firstGame: bool)
  {
    && IsPool(q.countries)
    && 1 <= q.questionsAsked <= LastQuestion
    && |q.countries| + q.questionsAsked == PoolBudget(firstGame)
    && 0 <= q.correctAnswer <= 2
    && 0 <= q.totalScore
  }

  // ---------------------------------------------------------------------
  // Multisets and duplicates

  /** A sequence has no duplicates exactly when each value occurs in it at most once. */
  lemma {:induction false} NoDuplicatesByCount(s: seq<string>)
    ensures NoDuplicates(s) <==> forall x :: multiset(s)[x] <= 1
  {
    if s != [] {
      NoDuplicatesByCount(s[1..]);
      assert s == [s[0]] + s[1..];
      assert multiset(s) == multiset{s[0]} + multiset(s[1..]);
      if NoDuplicates(s) {
        assert NoDuplicates(s[1..]) by {
          forall i, j | 0 <= i < j < |s[1..]| ensures s[1..][i] != s[1..][j] {
            assert s[1..][i] == s[i + 1] && s[1..][j] == s[j + 1];
          }
        }
      } else {
        var i, j :| 0 <= i < j < |s| && s[i] == s[j];
        if i == 0 {
          assert s[0] in s[1..] by { assert s[1..][j - 1] == s[j]; }
          assert multiset(s)[s[0]] >= 2;
        } else {
          assert s[1..][i - 1] == s[i] && s[1..][j - 1] == s[j];
          assert !NoDuplicates(s[1..]);
          var x :| multiset(s[1..])[x] > 1;
          assert multiset(s)[x] > 1;
        }
      }
    }
  }

  /** A reordering has the same length as the original. */
  lemma ShuffleKeepsLength(shuffled: seq<string>, pool: seq<string>)
    requires IsShuffleOf(shuffled, pool)
    ensures |shuffled| == |pool|
  {
    assert |shuffled| == |multiset(shuffled)| == |multiset(pool)| == |pool|;
  }

  /** Reordering a sequence keeps it free of duplicates and keeps its elements. */
  lemma ShuffleKeepsNoDuplicates(shuffled: seq<string>, pool: seq<string>)
    requires IsShuffleOf(shuffled, pool)
    requires NoDuplicates(pool)
    ensures NoDuplicates(shuffled)
    ensures forall c :: c in shuffled <==> c in pool
  {
    NoDuplicatesByCount(pool);
    NoDuplicatesByCount(shuffled);
    assert forall c :: c in shuffled <==> c in multiset(pool);
  }

  /** Removing an element from a sequence without duplicates keeps it free
      of duplicates, and the removed value is gone from it. */
  lemma RemoveAtFromNoDuplicates(s: seq<string>, i: int)
    requires 0 <= i < |s|
    requires NoDuplicates(s)
    ensures NoDuplicates(RemoveAt(s, i))
    ensures forall c :: c in RemoveAt(s, i) <==> c in s && c != s[i]
  {
    var r := RemoveAt(s, i);
    NoDuplicatesByCount(s);
    NoDuplicatesByCount(r);
    assert multiset(s)[s[i]] == 1;
    forall c ensures c in r <==> c in s && c != s[i] {
      assert c in r <==> multiset(r)[c] > 0;
      assert c in s <==> multiset(s)[c] > 0;
    }
  }

  /** The reference pool, in its declared order. */
  lemma AllCountriesListed()
    ensures AllCountries() == ["Estonia", "France", "Germany", "Ireland", "Italy", "Nigeria",
                             "Poland", "Spain", "UK", "Ukraine", "US"]
  {
  }

  /** The reference pool itself is a pool: its eleven names are distinct. */
  lemma ReferenceIsPool()
    ensures IsPool(AllCountries())
  {
  }

  /** A reordering of a pool is a pool of the same size. */
  lemma ShuffleKeepsPool(shuffled: seq<string>, pool: seq<string>)
    requires IsShuffleOf(shuffled, pool)
    requires IsPool(pool)
    ensures IsPool(shuffled)
    ensures |shuffled| == |pool|
  {
    ShuffleKeepsNoDuplicates(shuffled, pool);
    ShuffleKeepsLength(shuffled, pool);
  }

  /** The pool after `remove(at:)` followed by a reshuffle: one entry fewer,
      the removed country gone and every other one kept. */
  lemma RemoveThenShuffle(shuffled: seq<string>, pool: seq<string>, i: int)
    requires 0 <= i < |pool|
    requires IsPool(pool)
    requires IsShuffleOf(shuffled, RemoveAt(pool, i))
    ensures IsPool(shuffled)
    ensures |shuffled| == |pool| - 1
    ensures forall c :: c in shuffled <==> c in pool && c != pool[i]
  {
    RemoveAtFromNoDuplicates(pool, i);
    ShuffleKeepsNoDuplicates(shuffled, RemoveAt(pool, i));
    ShuffleKeepsLength(shuffled, RemoveAt(pool, i));
  }

  // ---------------------------------------------------------------------
  // The feedback message

  /** The article "the" is written exactly for the countries that need it. */
  lemma WrongTitleArticle(answer: string)
    ensures WrongTitle(answer) == "Wrong! That is a a flag of the " + answer <==> answer in CountriesNeedThe
    ensures WrongTitle(answer) == "Wrong! That is a a flag of " + answer <==> answer !in CountriesNeedThe
  {
    var withThe := "Wrong! That is a a flag of the " + answer;
    var without := "Wrong! That is a a flag of " + answer;
    assert |withThe| != |without|;
  }

  /** A wrong-tap message of a reference country names that country, and it
      is never mistaken for the message of a correct tap. */
  lemma WrongTitleNamesCountry(answer: string)
    requires answer in AllCountries()
    ensures NamedCountry(WrongTitle(answer)) == answer
    ensures WrongTitle(answer) != "Correct."
  {
    var prefix := "Wrong! That is a a flag of ";
    var title := WrongTitle(answer);
    if answer in CountriesNeedThe {
      assert title == prefix + ("the " + answer);
    } else {
      assert title == prefix + answer;
      assert answer[0] != 't';
      assert |answer| < 4 || answer[..4] != "the " by {
        if |answer| >= 4 { assert answer[..4][0] == answer[0]; }
      }
    }
    assert title[..|prefix|] == prefix;
  }

  // ---------------------------------------------------------------------
  // The invariant

  /** Every index the view uses is in range: the three displayed flags, the
      flag to find, and the tapped flag. The displayed flags are distinct
      reference countries. */
  lemma InvKeepsIndicesInRange(q: QuizState, firstGame: bool)
    requires Inv(q, firstGame)
    ensures 3 <= |q.countries|
    ensures q.correctAnswer < 3
    ensures NoDuplicates(q.countries[..3])
    ensures forall i :: 0 <= i < 3 ==> IsCountry(q.countries[i])
  {
    assert |q.countries| >= PoolBudget(firstGame) - LastQuestion;
  }

  lemma InitialKeepsInv(shuffled: seq<string>, k: int)
    requires IsShuffleOf(shuffled, AllCountries())
    requires 0 <= k <= 2
    ensures Inv(Initial(shuffled, k), true)
  {
    ReferenceIsPool();
    ShuffleKeepsPool(shuffled, AllCountries());
  }

  /** A tap keeps the invariant and leaves the pool, the correct index and
      the round unchanged. */
  lemma TapKeepsInv(q: QuizState, firstGame: bool, number: int)
    requires Inv(q, firstGame)
    requires 0 <= number <= 2
    ensures |q.countries| >= 3
    ensures Inv(Tap(q, number), firstGame)
    ensures Tap(q, number).countries == q.countries
    ensures Tap(q, number).correctAnswer == q.correctAnswer
    ensures Tap(q, number).questionsAsked == q.questionsAsked
  {
    InvKeepsIndicesInRange(q, firstGame);
  }

  /** Asking a question before the last round keeps the invariant. */
  lemma AskKeepsInv(q: QuizState, firstGame: bool, shuffled: seq<string>, k: int)
    requires Inv(q, firstGame)
    requires q.questionsAsked < LastQuestion
    requires 0 <= q.correctAnswer < |q.countries|
    requires IsShuffleOf(shuffled, RemoveAt(q.countries, q.correctAnswer))
    requires 0 <= k <= 2
    ensures Inv(Ask(q, shuffled, k), firstGame)
  {
    RemoveThenShuffle(shuffled, q.countries, q.correctAnswer);
  }

  /** The new pool is the old one without the country just asked: that
      country cannot be asked again, every other country stays, and the pool
      loses exactly one entry. */
  lemma AskReplacesAnswer(q: QuizState, firstGame: bool, shuffled: seq<string>, k: int)
    requires Inv(q, firstGame)
    requires 0 <= q.correctAnswer < |q.countries|
    requires IsShuffleOf(shuffled, RemoveAt(q.countries, q.correctAnswer))
    requires 0 <= k <= 2
    ensures |Ask(q, shuffled, k).countries| == |q.countries| - 1
    ensures q.countries[q.correctAnswer] !in Ask(q, shuffled, k).countries
    ensures forall c :: c in Ask(q, shuffled, k).countries <==> c in q.countries && c != q.countries[q.correctAnswer]
    ensures IsPool(Ask(q, shuffled, k).countries)
  {
    RemoveThenShuffle(shuffled, q.countries, q.correctAnswer);
  }

  /** After a reset the pool is the reference pool without its entry at the
      old correct index (one of its first three countries), in shuffled order:
      ten distinct countries, round 1, score 0. The invariant holds for the
      games after the first. */
  lemma ResetRestoresPool(q: QuizState, shuffled: seq<string>, k: int)
    requires 0 <= q.correctAnswer < |AllCountries()|
    requires IsShuffleOf(shuffled, RemoveAt(AllCountries(), q.correctAnswer))
    requires 0 <= k <= 2
    ensures Reset(q, shuffled, k).totalScore == 0
    ensures Reset(q, shuffled, k).questionsAsked == 1
    ensures |Reset(q, shuffled, k).countries| == 10
    ensures forall c :: c in Reset(q, shuffled, k).countries <==> IsCountry(c) && c != AllCountries()[q.correctAnswer]
    ensures Inv(Reset(q, shuffled, k), false)
  {
    ReferenceIsPool();
    RemoveThenShuffle(shuffled, AllCountries(), q.correctAnswer);
  }

  /** The country a reset drops is one of the reference pool's first three,
      whichever flags were on screen: Estonia, France or Germany. */
  lemma ResetDropsEarlyCountry(q: QuizState, shuffled: seq<string>, k: int)
    requires 0 <= q.correctAnswer <= 2
    requires IsShuffleOf(shuffled, RemoveAt(AllCountries(), q.correctAnswer))
    requires 0 <= k <= 2
    ensures AllCountries()[q.correctAnswer] in ["Estonia", "France", "Germany"]
    ensures AllCountries()[q.correctAnswer] !in Reset(q, shuffled, k).countries
  {
    ResetRestoresPool(q, shuffled, k);
  }

  // ---------------------------------------------------------------------
  // A whole game

  /** `next` is a state the "Continue" button can lead to from `q`: some
      reshuffle of the remaining pool and some index in 0..2. */
  predicate IsAskStep(q: QuizState, next: QuizState)
  {
    && 0 <= q.correctAnswer < |q.countries|
    && IsShuffleOf(next.countries, RemoveAt(q.countries, q.correctAnswer))
    && 0 <= next.correctAnswer <= 2
    && next == Ask(q, next.countries, next.correctAnswer)
  }

  /** One game of eight rounds from a session at round 1: `before[i]` is the
      state when the flag `taps[i]` is tapped, `after[i]` the state right after,
      and each of the first seven rounds is followed by asking a question. */
  ghost predicate IsGame(before: seq<QuizState>, after: seq<QuizState>, taps: seq<int>, firstGame: bool)
  {
    && |before| == |after| == |taps| == LastQuestion
    && Inv(before[0], firstGame)
    && before[0].questionsAsked == 1
    && (forall i {:trigger taps[i]} :: 0 <= i < LastQuestion ==>
          && 0 <= taps[i] <= 2
          && (taps[i] == before[i].correctAnswer || taps[i] < |before[i].countries|)
          && after[i] == Tap(before[i], taps[i]))
    && (forall i {:trigger after[i]} :: 0 <= i < LastQuestion - 1 ==> IsAskStep(after[i], before[i + 1]))
  }

  /** The number of the first `n` taps that hit the correct flag. */
  function CorrectTaps(before: seq<QuizState>, taps: seq<int>, n: nat): (count: nat)
    requires n <= |before| && n <= |taps|
    ensures count <= n
  {
    if n == 0 then 0
    else CorrectTaps(before, taps, n - 1) + (if taps[n - 1] == before[n - 1].correctAnswer then 1 else 0)
  }

  /** One round before the last: tap, then "Continue". The invariant is kept,
      the round advances, the score grows by one exactly on a correct tap,
      and the "Continue" alert was requested. */
  lemma RoundStep(q: QuizState, firstGame: bool, number: int, next: QuizState)
    requires Inv(q, firstGame)
    requires q.questionsAsked < LastQuestion
    requires 0 <= number <= 2
    requires IsAskStep(Tap(q, number), next)
    ensures Inv(next, firstGame)
    ensures next.questionsAsked == q.questionsAsked + 1
    ensures next.totalScore == q.totalScore + (if number == q.correctAnswer then 1 else 0)
    ensures Tap(q, number).showingScore
  {
    TapKeepsInv(q, firstGame, number);
    AskKeepsInv(Tap(q, number), firstGame, next.countries, next.correctAnswer);
  }

  /** Before the tap of round `r` the invariant holds, the counter shows `r`,
      and the score has grown by the number of earlier correct taps. */
  lemma {:induction false} GameSoFar(before: seq<QuizState>, after: seq<QuizState>, taps: seq<int>,
                                     firstGame: bool, r: nat)
    requires IsGame(before, after, taps, firstGame)
    requires 1 <= r <= LastQuestion
    ensures Inv(before[r - 1], firstGame)
    ensures before[r - 1].questionsAsked == r
    ensures before[r - 1].totalScore == before[0].totalScore + CorrectTaps(before, taps, r - 1)
  {
    if r > 1 {
      GameSoFar(before, after, taps, firstGame, r - 1);
      assert 0 <= taps[r - 2] <= 2 && after[r - 2] == Tap(before[r - 2], taps[r - 2]);
      assert IsAskStep(after[r - 2], before[r - 1]);
      RoundStep(before[r - 2], firstGame, taps[r - 2], before[r - 1]);
    }
  }

  /** Eight taps, each of the first seven followed by a new question, end the
      game whatever was tapped, and the final score is the starting score plus
      the number of correct taps, so at most eight more than at the start. */
  lemma EightRoundsEndTheGame(before: seq<QuizState>, after: seq<QuizState>, taps: seq<int>, firstGame: bool)
    requires IsGame(before, after, taps, firstGame)
    ensures after[LastQuestion - 1].newGame
    ensures after[LastQuestion - 1].totalScore == before[0].totalScore + CorrectTaps(before, taps, LastQuestion)
    ensures after[LastQuestion - 1].totalScore <= before[0].totalScore + LastQuestion
    ensures forall i :: 0 <= i < LastQuestion - 1 ==> after[i].showingScore
  {
    GameSoFar(before, after, taps, firstGame, LastQuestion);
    var last := before[LastQuestion - 1];
    assert 0 <= taps[LastQuestion - 1] <= 2 && after[LastQuestion - 1] == Tap(last, taps[LastQuestion - 1]);
    TapKeepsInv(last, firstGame, taps[LastQuestion - 1]);
    forall i | 0 <= i < LastQuestion - 1 ensures after[i].showingScore {
      ContinueBeforeLastRound(before, after, taps, firstGame, i);
    }
  }

  /** Every tap before the last round requests the "Continue" alert. */
  lemma ContinueBeforeLastRound(before: seq<QuizState>, after: seq<QuizState>, taps: seq<int>,
                                firstGame: bool, i: nat)
    requires IsGame(before, after, taps, firstGame)
    requires i < LastQuestion - 1
    ensures after[i].showingScore
  {
    GameSoFar(before, after, taps, firstGame, i + 1);
    assert 0 <= taps[i] <= 2 && after[i] == Tap(before[i], taps[i]);
  }
}
