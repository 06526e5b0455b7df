/**
 * The time-window whitelist that script.js (script.js:136), get_news.php
 * (get_news.php:26-28) and src/gdelt.py (src/gdelt.py:20-22) each spell out.
 */
module Timespan {
  /** The accepted GDELT time windows. */
  const Allowed: seq<string> := ["1h", "6h", "24h", "3d", "7d"]

  /** The window used when none, or one outside the whitelist, is given. */
  const Default: string := "24h"

  /** Keep a whitelisted window, replace anything else by the default. */
  function Normalize(ts: string): (r: string)
    ensures r in Allowed
    ensures ts in Allowed ==> r == ts
    ensures ts !in Allowed ==> r == Default
  {
    if ts in Allowed then ts else Default
  }
}
