/** The scoring and input state of `LCSGame`: the fields `handle_input`
    updates on each key press. A pure transition function `Step` states what
    one event does; the class `LcsGame` holds the fields and its
    `HandleInput` is proved to perform exactly `Step`. */
module Game {
  import opened Subsequence
  import opened GreedyMatch

  /** `game_state`: "playing" or "showing_solution". */
  datatype Phase = Playing | ShowingSolution

  /** The events `handle_input` tells apart. `Key(unicode)` is any other key
      press with the text it produces; `Other` is any event that is neither a
      key press nor a request to quit. */
  datatype Event = Quit | Escape | Return | Backspace | Space | Key(unicode: string) | Other

  /** What `handle_input` returns to the frame loop: nothing, or "exit_to_menu". */
  datatype Action = Continue | ExitToMenu

  datatype Option<T> = None | Some(value: T)

  /** The fields of the game that input handling reads or writes. */
  datatype Snapshot = Snapshot(
    score: int,
    level: int,
    userSequence: string,
    currentPair: (string, string),
    gameState: Phase,
    correctSequence: Option<string>,
    running: bool)

  predicate IsLetter(c: char)
  {
    'a' <= c <= 'z' || 'A' <= c <= 'Z'
  }

  predicate IsUpperLetter(c: char)
  {
    'A' <= c <= 'Z'
  }

  /** `str.isalpha()`, restricted to ASCII letters: non-empty and letters only. */
  predicate IsAlpha(u: string)
  {
    u != [] && forall k :: 0 <= k < |u| ==> IsLetter(u[k])
  }

  function UpperChar(c: char): char
  {
    if 'a' <= c <= 'z' then (c as int - 32) as char else c
  }

  /** `str.upper()` on ASCII text: one character for each, and letters come
      out as capitals. */
  function Upper(u: string): (r: string)
    ensures |r| == |u|
    ensures IsAlpha(u) ==> AllUpper(r)
  {
    seq(|u|, k requires 0 <= k < |u| => UpperChar(u[k]))
  }

  /** Every character is a capital ASCII letter. */
  predicate AllUpper(s: string)
  {
    forall k :: 0 <= k < |s| ==> IsUpperLetter(s[k])
  }

  /** `s[:-1]`: drops the last character, and leaves the empty string alone. */
  function DropLast(s: string): (r: string)
    ensures s == [] ==> r == []
    ensures s != [] ==> r + [s[|s| - 1]] == s
  {
    if s == [] then [] else s[..|s| - 1]
  }

  /** The test Return applies: the typed sequence is a common subsequence of
      both words (`check_user_sequence`) and as long as `find_lcs` of the pair. */
  predicate Accepts(st: Snapshot)
  {
    && IsSubseq(st.userSequence, st.currentPair.0)
    && IsSubseq(st.userSequence, st.currentPair.1)
    && |st.userSequence| == |GreedyLcs(st.currentPair.0, st.currentPair.1).lcs|
  }

  /** One call of `handle_input`. `nextPair` is the pair `get_new_word_pair`
      would draw; it is used only when Return is accepted. */
  function Step(st: Snapshot, e: Event, nextPair: (string, string)): (r: Snapshot)
    ensures r.score >= st.score && (r.level == st.level || r.level == st.level + 1)
    ensures e != Return ==> r.score == st.score && r.level == st.level && r.currentPair == st.currentPair
    ensures e != Quit && e != Escape ==> r.running == st.running
  {
    match e
    case Quit => st.(running := false)
    case Escape => st.(running := false)
    case Return =>
      if Accepts(st) then
        st.(score := st.score + |st.userSequence| * 10,
            level := st.level + 1,
            currentPair := nextPair,
            userSequence := [],
            gameState := Playing)
      else st
    case Backspace => st.(userSequence := DropLast(st.userSequence))
    case Space =>
      st.(correctSequence := Some(GreedyLcs(st.currentPair.0, st.currentPair.1).lcs),
          gameState := ShowingSolution)
    case Key(u) => if IsAlpha(u) then st.(userSequence := st.userSequence + Upper(u)) else st
    case Other => st
  }

  /** What `LCSGame.handle_input` returns for an event. */
  function ActionOf(e: Event): Action
  {
    if e == Escape then ExitToMenu else Continue
  }

  /** One event together with the pair drawn for it. */
  datatype Tick = Tick(event: Event, nextPair: (string, string))

  /** A series of `handle_input` calls. */
  function Run(st: Snapshot, ticks: seq<Tick>): Snapshot
    decreases |ticks|
  {
    if ticks == [] then st
    else Run(Step(st, ticks[0].event, ticks[0].nextPair), ticks[1..])
  }

  /** Return moves to the next level exactly when the typed sequence is
      accepted, and then pays ten points per character, clears the sequence,
      resumes play and switches to the drawn pair; otherwise nothing changes. */
  lemma ReturnRewardsOnlyAccepted(st: Snapshot, nextPair: (string, string))
    ensures Step(st, Return, nextPair).level == st.level + 1 <==> Accepts(st)
    ensures Accepts(st) ==>
      var r := Step(st, Return, nextPair);
      && r.score == st.score + 10 * |st.userSequence|
      && r.userSequence == [] && r.gameState == Playing && r.currentPair == nextPair
      && r.correctSequence == st.correctSequence && r.running == st.running
    ensures !Accepts(st) ==> Step(st, Return, nextPair) == st
  {
  }

  /** An accepted sequence is a common subsequence of the pair, so the reward is
      at most ten points per character of the shorter word. */
  lemma RewardBounded(st: Snapshot, nextPair: (string, string))
    ensures Step(st, Return, nextPair).score - st.score <=
      10 * |st.currentPair.0| && Step(st, Return, nextPair).score - st.score <= 10 * |st.currentPair.1|
  {
    if Accepts(st) {
      SubseqLength(st.userSequence, st.currentPair.0);
      SubseqLength(st.userSequence, st.currentPair.1);
    }
  }

  /** Space shows `find_lcs` of the pair, a common subsequence of both words,
      and touches neither score, level nor the typed sequence. */
  lemma SpaceShowsSolution(st: Snapshot, nextPair: (string, string))
    ensures
      var r := Step(st, Space, nextPair);
      && r.correctSequence.Some?
      && IsSubseq(r.correctSequence.value, st.currentPair.0)
      && IsSubseq(r.correctSequence.value, st.currentPair.1)
      && r.gameState == ShowingSolution
      && r.score == st.score && r.level == st.level
      && r.userSequence == st.userSequence && r.currentPair == st.currentPair
  {
    GreedyIsCommon(st.currentPair.0, st.currentPair.1);
  }

  /** Typing the solution Space shows is accepted by Return. */
  lemma ShownSolutionAccepted(st: Snapshot)
    requires st.userSequence == GreedyLcs(st.currentPair.0, st.currentPair.1).lcs
    ensures Accepts(st)
  {
    GreedyIsCommon(st.currentPair.0, st.currentPair.1);
  }

  /** A letter key appends exactly its upper-case form, and Backspace removes it again. */
  lemma LetterThenBackspace(st: Snapshot, c: char, nextPair: (string, string))
    requires IsLetter(c)
    ensures
      var r := Step(st, Key([c]), nextPair);
      && r.userSequence == st.userSequence + [UpperChar(c)]
      && IsUpperLetter(UpperChar(c))
      && r == st.(userSequence := r.userSequence)
    ensures Step(Step(st, Key([c]), nextPair), Backspace, nextPair) == st
  {
    var r := Step(st, Key([c]), nextPair);
    assert Upper([c]) == [UpperChar(c)];
    assert DropLast(r.userSequence) == st.userSequence;
  }

  /** Backspace removes exactly the last character, leaves an empty sequence
      empty, and changes no other field. */
  lemma BackspaceRemovesLast(st: Snapshot, nextPair: (string, string))
    ensures
      var r := Step(st, Backspace, nextPair);
      && (st.userSequence == [] ==> r.userSequence == [])
      && (st.userSequence != [] ==> r.userSequence + [st.userSequence[|st.userSequence| - 1]] == st.userSequence)
      && r == st.(userSequence := r.userSequence)
  {
  }

  /** Quit and Escape stop the game and change nothing else; only Escape asks
      to go back to the menu. */
  lemma QuitStops(st: Snapshot, e: Event, nextPair: (string, string))
    requires e == Quit || e == Escape
    ensures Step(st, e, nextPair) == st.(running := false)
    ensures (ActionOf(e) == ExitToMenu) <==> e == Escape
  {
  }

  /** The typed sequence consists of upper-case letters after every event,
      if it did before. */
  lemma StepKeepsUpper(st: Snapshot, e: Event, nextPair: (string, string))
    requires AllUpper(st.userSequence)
    ensures AllUpper(Step(st, e, nextPair).userSequence)
  {
    match e
    case Key(u) =>
      if IsAlpha(u) {
        var s := st.userSequence + Upper(u);
        forall k | 0 <= k < |s| ensures IsUpperLetter(s[k]) {
          if k >= |st.userSequence| {
            assert s[k] == UpperChar(u[k - |st.userSequence|]);
          }
        }
      }
    case Backspace =>
      var s := DropLast(st.userSequence);
      assert forall k :: 0 <= k < |s| ==> s[k] == st.userSequence[k];
    case _ =>
  }

  /** Over any series of events, score and level never decrease, the score
      stays a multiple of ten, and the typed sequence stays upper-case. */
  lemma {:induction false} RunMonotone(st: Snapshot, ticks: seq<Tick>)
    requires st.score % 10 == 0 && AllUpper(st.userSequence)
    ensures Run(st, ticks).score >= st.score && Run(st, ticks).level >= st.level
    ensures Run(st, ticks).score % 10 == 0
    ensures AllUpper(Run(st, ticks).userSequence)
    decreases |ticks|
  {
    if ticks != [] {
      var next := Step(st, ticks[0].event, ticks[0].nextPair);
      StepKeepsUpper(st, ticks[0].event, ticks[0].nextPair);
      assert next.score % 10 == 0;
      RunMonotone(next, ticks[1..]);
    }
  }

  /** The game object: the fields `handle_input` reads and writes. */
  class LcsGame {
    var score: int
    var level: int
    var running: bool
    var gameState: Phase
    var currentPair: (string, string)
    var userSequence: string
    var correctSequence: Option<string>

    function View(): Snapshot
      reads this
    {
      Snapshot(score, level, userSequence, currentPair, gameState, correctSequence, running)
    }

    /** `LCSGame.__init__` without the window, corpus and clock; `pair` is the
        first drawn word pair. */
    constructor (pair: (string, string))
      ensures View() == Snapshot(0, 1, [], pair, Playing, None, true)
    {
      score := 0;
      level := 1;
      running := true;
      gameState := Playing;
      currentPair := pair;
      userSequence := [];
      correctSequence := None;
    }

    /** `check_user_sequence`: the typed sequence is a subsequence of both words. */
    method CheckUserSequence() returns (ok: bool)
      ensures ok <==> IsSubseq(userSequence, currentPair.0) && IsSubseq(userSequence, currentPair.1)
    {
      var word1, word2 := currentPair.0, currentPair.1;
      ok := IsSubsequence(userSequence, word1);
      if ok {
        ok := IsSubsequence(userSequence, word2);
      }
    }

    /** `handle_input(event)`; `nextPair` stands for `get_new_word_pair()`. */
    method HandleInput(event: Event, nextPair: (string, string)) returns (action: Action)
      modifies this
      ensures View() == Step(old(View()), event, nextPair)
      ensures action == ActionOf(event)
    {
      action := Continue;
      match event
      case Quit =>
        running := false;
      case Escape =>
        running := false;
        action := ExitToMenu;
      case Return =>
        var ok := CheckUserSequence();
        if ok {
          var correctLcs := FindLcs(currentPair.0, currentPair.1);
          if |userSequence| == |correctLcs| {
            score := score + |userSequence| * 10;
            level := level + 1;
            currentPair := nextPair;
            userSequence := [];
            gameState := Playing;
          }
        }
      case Backspace =>
        userSequence := DropLast(userSequence);
      case Space =>
        var solution := FindLcs(currentPair.0, currentPair.1);
        correctSequence := Some(solution);
        gameState := ShowingSolution;
      case Key(u) =>
        if IsAlpha(u) {
          userSequence := userSequence + Upper(u);
        }
      case Other =>
    }
  }
}
