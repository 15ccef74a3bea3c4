/**
 * The choice `loadTheme` makes between keeping the resident theme, reading
 * the copy saved in browser storage and fetching `theme.json` again, and the
 * storage items that choice reads and writes.
 */
module ThemeCache {
  import opened Wrappers
  import opened ThemeData

  /** How long a saved theme may be served, in milliseconds (30 minutes). */
  const CacheResultDuration: int := 1800000

  datatype LoadSource = AlreadyLoaded | FromCache | FromNetwork

  /**
   * The storage items the parser uses: the saved theme, the time it was
   * fetched, and the custom colours saved by name. The saved theme is kept
   * as the descriptor its JSON text encodes.
   */
  datatype Storage = Storage(
    themeData: Option<Descriptor>,
    themeDataLastFetch: Option<int>,
    customColors: Option<seq<(string, CustomColor)>>)

  /** A theme fetched at `lastFetch` may still be served at `now`. */
  function IsFresh(lastFetch: int, now: int): (isFresh: bool)
    ensures isFresh <==> now <= lastFetch + 30 * 60 * 1000
  {
    now - lastFetch <= CacheResultDuration
  }

  /** Where `loadTheme(force)` takes the theme from. */
  function Decide(force: bool, resident: bool, storage: Storage, now: int): (s: LoadSource)
    ensures s == AlreadyLoaded <==> !force && resident
    ensures s == FromCache <==>
              && !force && !resident
              && storage.themeData.Some? && storage.themeDataLastFetch.Some?
              && IsFresh(storage.themeDataLastFetch.value, now)
    ensures force ==> s == FromNetwork
  {
    if !force && resident then AlreadyLoaded
    else if !force && storage.themeData.Some? && storage.themeDataLastFetch.Some?
            && now - storage.themeDataLastFetch.value <= CacheResultDuration then FromCache
    else FromNetwork
  }

  /** The network branch records the fetch time and saves the fetched theme; the custom colours stay. */
  function AfterFetch(storage: Storage, fetched: Descriptor, now: int): (s: Storage)
    ensures s.themeData == Some(fetched) && s.themeDataLastFetch == Some(now)
    ensures s.customColors == storage.customColors
  {
    storage.(themeDataLastFetch := Some(now), themeData := Some(fetched))
  }

  /**
   * A theme saved by a fetch is served from storage, to a parser with no
   * resident theme, for exactly 30 minutes after that fetch: up to
   * and including `now + 1800000`, and not one millisecond later.
   */
  lemma FetchServesCache(storage: Storage, fetched: Descriptor, now: int, later: int)
    ensures Decide(false, false, AfterFetch(storage, fetched, now), later) == FromCache
            <==> later <= now + CacheResultDuration
  {
  }
}
