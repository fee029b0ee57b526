# GuessTheFlag quiz session in Dafny

GuessTheFlag is a one-screen quiz. The player sees three flags and the name
of a country. They tap the flag they think belongs to that country and get
feedback and a running score. After eight rounds the game is over and the
player can reset it. All of the game's logic is in the state of `ContentView`
and the three actions that change it:

- `flagTapped(_:)` scores a guess, writes the feedback text and asks for
  either the "Continue" alert or the "Game over" alert;
- `askQuestion()` (the "Continue" button) drops the country just asked from
  the pool, reshuffles the pool, picks a new flag to find and advances the
  round;
- `resetGame()` (the "Reset" button) zeroes the counters, restores the full
  pool and asks a question.

The project has two modules:

- `Quiz` (`Quiz.dfy`) describes the session as values:
  - the reference pool `AllCountries()`;
  - the session record `QuizState`;
  - the transitions `Initial`, `Tap`, `Ask` and `Reset`;
  - the invariant `Inv`, with the lemmas that it holds initially and is kept
    by every action;
  - what each action does to the pool;
  - the feedback text of a wrong tap;
  - a whole game of eight rounds.
- `GuessTheFlag` (`GuessTheFlag.dfy`) holds the class `ContentView`. Its
  fields are the view's session fields, and its three methods change them in
  place. Each method is proved to produce `Tap`, `Ask` or `Reset` of the old
  state. `Valid()` is `Inv` of the fields, so the indices the view uses,
  `countries[0..<3]` and `countries[correctAnswer]`, stay in range.

Randomness is a parameter:

- where the app calls `shuffled()` or `shuffle()`, the caller supplies any
  sequence whose multiset equals the pool's (`IsShuffleOf`);
- where the app calls `Int.random(in: 0...2)`, the caller supplies `k` with
  `0 <= k <= 2`.

The pool size and the round counter move together. Their sum is 12 in the
first game (11 countries at round 1) and 11 after any reset (10 countries at
round 1, because the reset's question removes one). A ghost field
`firstGame` records which budget applies.

The feedback for a correct tap is "Correct.", with its full stop, and the
wrong-tap text keeps the code's doubled "a a".

## Model

| member | source | states |
|---|---|---|
| Quiz.AllCountries | GuessTheFlag/ContentView.swift:11 | a definition without a contract: the eleven reference countries in declared order, Estonia first and US last |
| Quiz.AllCountriesListed | GuessTheFlag/ContentView.swift:11 | the reference pool is exactly the list "Estonia", "France", "Germany", "Ireland", "Italy", "Nigeria", "Poland", "Spain", "UK", "Ukraine", "US" |
| Quiz.ReferenceIsPool | GuessTheFlag/ContentView.swift:11 | the eleven reference names are distinct, so the reference pool itself satisfies the pool invariant |
| Quiz.IsShuffleOf | GuessTheFlag/ContentView.swift:108 | a definition without a contract: `shuffled` holds exactly the elements of the pool, each as often, in any order; it stands for the outcome of `shuffled()` and `shuffle()` |
| Quiz.Initial | GuessTheFlag/ContentView.swift:13-21 | a definition without a contract: the initial session, namely a reshuffle of the whole reference pool, the drawn index `k` in 0..2, score 0, round 1, both alerts off and an empty title |
| Quiz.WrongTitle | GuessTheFlag/ContentView.swift:89-96 | a definition without a contract: the wrong-tap text, "Wrong! That is a a flag of the " + country when the country is "UK" or "US", and "Wrong! That is a a flag of " + country otherwise |
| Quiz.Tap | GuessTheFlag/ContentView.swift:84-104 | a definition without a contract: a correct tap adds one to the score and sets "Correct."; a wrong tap sets the wrong-tap text of the tapped country; then round 8 requests "Game over" and any other round "Continue" |
| Quiz.Ask | GuessTheFlag/ContentView.swift:106-111 | a definition without a contract: the pool becomes the caller's reshuffle of the pool without its entry at the correct index, the correct index becomes the drawn `k`, and the round advances by one |
| Quiz.Reset | GuessTheFlag/ContentView.swift:113-118 | a definition without a contract: score 0, round 0 and the unshuffled reference pool, followed by `Ask` |
| Quiz.Inv | GuessTheFlag/ContentView.swift:13-17 | a definition without a contract: the session invariant, namely distinct reference countries in the pool, a round in 1..8, pool size plus round equal to 12 in the first game and 11 later, a correct index in 0..2 and a non-negative score |
| GuessTheFlag.ContentView.Valid | GuessTheFlag/ContentView.swift:13-21 | a definition without a contract: `Inv` of the seven fields, with the ghost `firstGame` choosing the budget |
| Quiz.RemoveAt | GuessTheFlag/ContentView.swift:107 | `remove(at: i)` drops exactly the element at `i`: the length drops by one, earlier elements stay where they were, later ones move down by one, and the multiset loses one copy of `s[i]` |
| Quiz.NoDuplicatesByCount | GuessTheFlag/ContentView.swift:108 | the counting form of "no duplicates" that the reshuffle proofs use: a sequence has no duplicates if and only if every value occurs in it at most once |
| Quiz.ShuffleKeepsLength | GuessTheFlag/ContentView.swift:108 | a reshuffle keeps the pool's length |
| Quiz.ShuffleKeepsNoDuplicates | GuessTheFlag/ContentView.swift:13 | a reshuffle of a duplicate-free pool is duplicate-free and has exactly the same members |
| Quiz.RemoveAtFromNoDuplicates | GuessTheFlag/ContentView.swift:107 | removing an entry from a duplicate-free pool keeps it duplicate-free, drops that country and keeps every other one |
| Quiz.ShuffleKeepsPool | GuessTheFlag/ContentView.swift:13 | a reshuffle of a pool of distinct reference countries is again such a pool, of the same size |
| Quiz.RemoveThenShuffle | GuessTheFlag/ContentView.swift:107-108 | remove then reshuffle gives a pool of distinct reference countries with one entry fewer; it holds every old country except the removed one, and only those |
| Quiz.WrongTitleArticle | GuessTheFlag/ContentView.swift:89-96 | the wrong-tap text is "Wrong! That is a a flag of the " + country if and only if the country is "UK" or "US"; otherwise it is "Wrong! That is a a flag of " + country |
| Quiz.WrongTitleNamesCountry | GuessTheFlag/ContentView.swift:88-96 | for each reference country, the wrong-tap text names exactly that country and never equals the correct-tap text "Correct." |
| Quiz.InvKeepsIndicesInRange | GuessTheFlag/ContentView.swift:44-52 | under the invariant the pool has at least three entries and the correct index is below three, so the three displayed flags and the flag to find are in range; the displayed flags are distinct reference countries |
| Quiz.InitialKeepsInv | GuessTheFlag/ContentView.swift:11-21 | the initial session holds all 11 distinct reference countries in shuffled order, with round 1, score 0 and a correct index in 0..2, so the first-game invariant holds |
| Quiz.TapKeepsInv | GuessTheFlag/ContentView.swift:84-104 | a tap keeps the invariant and leaves the pool, the correct index and the round counter unchanged |
| Quiz.AskKeepsInv | GuessTheFlag/ContentView.swift:106-111 | asking a question before round 8 keeps the invariant: the pool shrinks by one while the round advances by one |
| Quiz.AskReplacesAnswer | GuessTheFlag/ContentView.swift:106-111 | after a question the pool has one entry fewer; the country just asked is not in it and every other country still is |
| Quiz.ResetRestoresPool | GuessTheFlag/ContentView.swift:113-118 | after a reset the score is 0 and the round is 1; the pool has 10 entries, namely every reference country except the reference pool's entry at the old correct index, and the later-game invariant holds |
| Quiz.ResetDropsEarlyCountry | GuessTheFlag/ContentView.swift:114-117 | the country a reset drops is always Estonia, France or Germany, whichever flags were on screen, and it is absent from the new pool |
| Quiz.CorrectTaps | GuessTheFlag/ContentView.swift:85-86 | the number of correct taps among the first `n` rounds is at most `n` |
| Quiz.RoundStep | GuessTheFlag/ContentView.swift:84-111 | one round before the last (a tap, then "Continue") keeps the invariant and advances the round by one; the score grows by one exactly on a correct tap, and the "Continue" alert is requested |
| Quiz.GameSoFar | GuessTheFlag/ContentView.swift:17 | along a game, the state before round `r`'s tap satisfies the invariant, shows round `r`, and its score is the starting score plus the number of correct taps in the earlier rounds |
| Quiz.ContinueBeforeLastRound | GuessTheFlag/ContentView.swift:99-103 | every tap of rounds 1 to 7 requests the "Continue" alert |
| Quiz.EightRoundsEndTheGame | GuessTheFlag/ContentView.swift:84-111 | eight taps from round 1, each of the first seven followed by a question, end with the "Game over" alert whatever was tapped; the final score is the starting score (0 in a fresh session) plus the number of correct taps, so at most eight more than the starting score |
| GuessTheFlag.ContentView.constructor | GuessTheFlag/ContentView.swift:11-21 | the initial fields: a shuffle of all 11 countries, a correct index in 0..2, round 1, score 0, both alerts off and an empty title; the invariant holds |
| GuessTheFlag.ContentView.FlagTapped | GuessTheFlag/ContentView.swift:84-104 | a correct tap adds one to the score and sets "Correct."; a wrong tap keeps the score and sets the wrong-tap text, with "the" exactly for UK and US; "Game over" is requested if and only if the round is 8, otherwise "Continue"; the pool, the correct index and the round are unchanged; the invariant is kept |
| GuessTheFlag.ContentView.AskQuestion | GuessTheFlag/ContentView.swift:106-111 | the new pool is a reshuffle of the old one without its entry at the old correct index: one entry shorter, and the asked country is gone; the new correct index is in 0..2 and the round advances by one; every other field is unchanged; before round 8 the invariant is kept |
| GuessTheFlag.ContentView.ResetGame | GuessTheFlag/ContentView.swift:113-118 | the score becomes 0 and the round 1; the pool becomes a reshuffle of the reference pool without its entry at the old correct index, so it has 10 entries; the correct index is in 0..2, the alerts and the title are unchanged, and the later-game invariant holds |

## Left out

- The SwiftUI `body` is left out: the gradient with floating-point colours, the stacks, the image assets, the styling and the preview. It is presentation, not logic.
- How the alerts are shown and dismissed is left out. SwiftUI clears `showingScore` or `newGame` through the alert binding when a button is tapped. That is framework behaviour, so the model only sets these flags. The rule that "Continue" is offered only before round 8 becomes the conditional invariant clause of `AskQuestion` and the shape of a game in `IsGame`; the methods' preconditions ask only for the indices and the reshuffle to be valid.
- Random generation is left out. `shuffled()`, `shuffle()` and `Int.random(in: 0...2)` are caller-supplied parameters, constrained only as above.
- The `@State` observation and re-render machinery is left out. It is framework plumbing.
- GuessTheFlag.ContentView.AskQuestion: the invariant is promised only when the call comes before round 8, because that is the only point at which the view offers "Continue". Called at round 8 the code would still run, and the model describes that state through `Ask`.
- Quiz.EightRoundsEndTheGame: a game that is continued past round 8 is not modelled, because the view offers no "Continue" after the eighth tap.
