/** Symbol names as the loader looks them up. */
module Symbols {
  import opened Memory

  /** macOS C symbols carry a leading underscore that host symbols do not have. */
  function StripUnderscore(s: seq<byte>): seq<byte> {
    if s != [] && s[0] == 0x5F then s[1..] else s
  }
}
