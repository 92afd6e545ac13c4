/** What writer and reader of AWDL action frames share. */
module FrameFormat {
  import opened Machine
  import opened Schedule

  const SYNC_PARAMS: U8 := 4
  const ELECTION: U8 := 5
  const SERVICE_PARAMS: U8 := 6
  const HT_CAPABILITIES: U8 := 7
  const DATA_PATH_STATE: U8 := 12
  const ARPA: U8 := 16
  const CHAN_SEQ: U8 := 18
  const VERSION: U8 := 21
  const ELECTION_V2: U8 := 24

  type Name = n: Bytes | |n| <= 64 && forall c <- n :: c != 0 witness []

  /** The channel encoding with a number; others are unknown to the writer and the reader alike. */
  function EncodingOf(enc: U8): Encoding {
    if enc == 0 then Simple else if enc == 1 then Legacy else if enc == 3 then OpClass else Unknown
  }
}
