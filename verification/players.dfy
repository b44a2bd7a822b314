/** The two players and the three outcome constants of the game base classes
    (`game_state.py` is not part of this model; its constants are WIN = 1,
    DRAW = 0 and LOSE = -1). */
module Players {

  datatype Player = P1 | P2

  const WIN: int := 1
  const DRAW: int := 0
  const LOSE: int := -1

  /** `get_current_player_name()` of a state whose `p1_turn` flag is `p1Turn`. */
  function PlayerOf(p1Turn: bool): (p: Player)
    ensures p == P1 <==> p1Turn
  {
    if p1Turn then P1 else P2
  }

  /** `'p1' if player == 'p2' else 'p2'`. */
  function Opponent(p: Player): (q: Player)
    ensures q != p
  {
    if p == P2 then P1 else P2
  }

  /** The score of a finished game from one player's side: WIN if that player
      has won, otherwise LOSE if the other player has, otherwise DRAW. */
  function Outcome(won: bool, lost: bool): (v: int)
    ensures v == WIN <==> won
    ensures v == LOSE <==> !won && lost
    ensures v == DRAW <==> !won && !lost
  {
    if won then WIN else if lost then LOSE else DRAW
  }
}
