/** The stand-alone `handle_input(event, game)`: the same key handling as
    `LCSGame.handle_input`, written as a function that assigns the fields of
    the game it is given and returns nothing. */
module InputHandler {
  import opened GreedyMatch
  import opened Game

  /** `handle_input(event, game)`; `nextPair` stands for `game.get_new_word_pair()`. */
  method HandleInput(event: Event, game: LcsGame, nextPair: (string, string))
    modifies game
    ensures game.View() == Step(old(game.View()), event, nextPair)
  {
    ghost var st := game.View();
    match event
    case Quit =>
      game.running := false;
    case Escape =>
      game.running := false;
    case Return =>
      var ok := game.CheckUserSequence();
      if ok {
        var correctLcs := FindLcs(game.currentPair.0, game.currentPair.1);
        if |game.userSequence| == |correctLcs| {
          assert Accepts(st);
          game.score := game.score + |game.userSequence| * 10;
          game.level := game.level + 1;
          game.currentPair := nextPair;
          game.userSequence := [];
          game.gameState := Playing;
        }
      }
    case Backspace =>
      game.userSequence := DropLast(game.userSequence);
    case Space =>
      var solution := FindLcs(game.currentPair.0, game.currentPair.1);
      game.correctSequence := Some(solution);
      game.gameState := ShowingSolution;
    case Key(u) =>
      if IsAlpha(u) {
        game.userSequence := game.userSequence + Upper(u);
      }
    case Other =>
  }
}
