/** The five 4-byte sentinels that delimit a player record and name its
    fields in the save file. */
module Markers {
  import opened Bytes

  const StartPlayer: seq<byte> := [0xBB, 0x63, 0xE3, 0x4F]
  const PlayerPassword: seq<byte> := [0x6C, 0xD1, 0x7C, 0x6E]
  const PlayerName: seq<byte> := [0xFD, 0x6B, 0xB9, 0xDA]
  const PlayerCurrentTurn: seq<byte> := [0xCB, 0x21, 0xB0, 0x7A]
  const EndPlayer: seq<byte> := [0x58, 0xBA, 0x7F, 0x4C]

  /** The markers are pairwise different, so a window matches at most one. */
  lemma MarkersDistinct()
    ensures |{StartPlayer, PlayerPassword, PlayerName, PlayerCurrentTurn, EndPlayer}| == 5
  {
    assert StartPlayer[0] != PlayerPassword[0] && StartPlayer[0] != PlayerName[0];
    assert StartPlayer[0] != PlayerCurrentTurn[0] && StartPlayer[0] != EndPlayer[0];
    assert PlayerPassword[0] != PlayerName[0] && PlayerPassword[0] != PlayerCurrentTurn[0];
    assert PlayerPassword[0] != EndPlayer[0] && PlayerName[0] != PlayerCurrentTurn[0];
    assert PlayerName[0] != EndPlayer[0] && PlayerCurrentTurn[0] != EndPlayer[0];
  }
}
