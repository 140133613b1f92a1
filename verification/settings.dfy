/** The operator settings the core reads from the environment. */
module Settings {

  /** `STALE_MS`, `TM_TTL_MS`, `TM_SOURCES` (lower-cased names) and
      `MPRIS_PREFER` (lower-cased, non-empty substrings, in priority order). */
  datatype Config = Config(
    staleMs: int,
    tmTtlMs: int,
    tmSources: set<string>,
    prefer: seq<string>)

  /** The values used when the environment sets nothing. */
  function DefaultConfig(): (c: Config)
    ensures c.staleMs == 15000 && c.tmTtlMs == 12000
    ensures c.tmSources == {"ytmusic", "youtube"} && c.prefer == []
  {
    Config(15000, 12000, {"ytmusic", "youtube"}, [])
  }
}
