# alertas: a Dafny model of the alert watcher's core

`alertas.py` polls the Servicio Meteorológico Nacional's GeoRSS feed of weather alerts,
checks whether the user's location lies inside each alert's polygon, and posts a
notification to an ntfy.sh topic for every alert it has not notified before. This project
models the three pieces of logic in that script and proves what they guarantee:

- **`strip_tags`** (module `TextCleaner`, `text_cleaner.dfy`): the cleaner applied to an
  alert's title and summary. Stage one, `" ".join(html.split())`, is `Split`/`Join`/`Collapse`
  over the exact set of characters Python's `str.isspace()` accepts. Stage two,
  `re.sub('<.*?>', "", value)`, is `RemoveTags`. Its non-greedy match is `CloseAt`: the first
  `>` after the `<`, with no newline in between, because `.` does not match a newline.
  Stage one runs first. Deleting a tag can therefore leave a doubled or leading space, and
  the whole cleaner is not idempotent. Both facts are proved by example.
- **`is_within_polygon`** (module `Geometry`, `geometry.dfy`): an alert is a class whose
  `coords` field the method changes in place. An empty list gives `False` and is left alone.
  Otherwise the list is closed by appending its first vertex, and the closed ring goes to
  shapely. shapely is a parameter that either answers or raises; a raise reads as
  "not inside".
- **one pass of `main`'s loop** (module `Poller`, `poller.dfy`): a `Watcher` holds
  `seen_alerts` (`seen`) and the log of notifications posted so far (`sent`). `PollCycle`
  walks the feed in order. `Run` is the value-level definition of one pass; `PollCycle`
  is proved to follow it, and the lemmas about `Run` state what a pass guarantees.

`optional.dfy` holds the `Option` datatype.

## Model

| member | source | states |
|---|---|---|
| TextCleaner.Split | alertas.py:33 | `html.split()` yields only non-empty pieces that hold no whitespace character |
| TextCleaner.SplitJoin | alertas.py:33 | round trip: splitting `" ".join(ws)` gives back `ws` for any list of such pieces |
| TextCleaner.Join | alertas.py:33 | `" ".join` of whitespace-free, non-empty pieces is collapsed text, and it starts with the first piece |
| TextCleaner.Collapse | alertas.py:33 | after stage one, every whitespace character is a plain space, none leads or trails, and none is followed by another; the text is never longer, and its non-whitespace characters are the input's, in order |
| TextCleaner.CollapseFixpoint | alertas.py:33 | stage one leaves a text unchanged if and only if the text is already collapsed |
| TextCleaner.CollapseIdempotent | alertas.py:33 | applying stage one twice is the same as applying it once |
| TextCleaner.CollapseKeepsWords | alertas.py:33 | stage one keeps the words: splitting its output gives the same words as splitting its input |
| TextCleaner.CloseAt | alertas.py:34 | a `<` closes at the first `>` after it when no newline comes first; when it closes nowhere, every `>` after it has a newline before it |
| TextCleaner.RemoveTags | alertas.py:34-35 | deleting the matches of `<.*?>` never makes the text longer |
| TextCleaner.RemoveTagsPlain | alertas.py:34-35 | text holding no `<` passes stage two unchanged, whatever follows it |
| TextCleaner.RemoveTagsAppend | alertas.py:34-35 | text after the last `>` passes stage two unchanged: no match starts there and none reaches into it, so a `<` with no `>` after it survives with everything that follows |
| TextCleaner.RemoveTagsKeepsUnclosed | alertas.py:34-35 | a `<` that opens no tag still opens none once tags after it are deleted |
| TextCleaner.RemoveTagsNoTag | alertas.py:34-35 | after stage two the pattern `<.*?>` matches nowhere |
| TextCleaner.RemoveTagsFixpoint | alertas.py:34-35 | stage two leaves a text unchanged if and only if the pattern matches nowhere in it |
| TextCleaner.RemoveTagsIdempotent | alertas.py:34-35 | stage two alone is idempotent |
| TextCleaner.SurvivorsSound | alertas.py:34-35 | stage two only deletes characters: its output is the input's characters at increasing indices, and every `<` it keeps was unmatched in the input (that what lies after the last `>` is kept is `RemoveTagsAppend`) |
| TextCleaner.StripTags | alertas.py:32-35 | the cleaner never makes its input longer |
| TextCleaner.StripTagsClean | alertas.py:32-35 | the cleaner's output is a single line, and no `<` in it has a `>` anywhere after it |
| TextCleaner.NoNewlineRemoveTags | alertas.py:33-35 | collapsed text holds no newline, and deleting tags adds none |
| TextCleaner.StripTagsExample | alertas.py:32-35 | `strip_tags("  <b>Alert</b>\n  now  ")` is `"Alert now"` |
| TextCleaner.StripTagsLeavesDoubleSpace | alertas.py:33-35 | `strip_tags("a <b> c")` is `"a  c"`, which is not whitespace-collapsed |
| TextCleaner.StripTagsOfDoubleSpace | alertas.py:32-35 | `strip_tags("a  c")` is `"a c"`: the cleaner collapses a doubled space |
| TextCleaner.StripTagsNotIdempotent | alertas.py:32-35 | cleaning `"a <b> c"` twice differs from cleaning it once |
| Geometry.Alert.constructor | alertas.py:21-27 | an alert carries its title, summary, link, description and coordinate list as given |
| Geometry.Closed | alertas.py:59 | appending the first vertex gives a list one longer, with the old list as its prefix and the last vertex equal to the first |
| Geometry.AfterCheck | alertas.py:55-59 | the coordinate list after the check is unchanged when empty, and closed with the old list as prefix otherwise |
| Geometry.Contains | alertas.py:52-65 | an empty coordinate list is never inside, and neither is a ring on which shapely raises; otherwise the answer is shapely's on the ring the check leaves behind, which is closed |
| Geometry.IsWithinPolygon | alertas.py:52-65 | the alert's own list is closed in place (an empty one is left alone and gives `False`); the answer is shapely's on the closed ring, and `False` when shapely raises |
| Poller.Notify | alertas.py:38-49 | a notification goes to the given topic with the fixed click URL, priority 4 and tag; its title and message are no longer than the alert's title and summary |
| Poller.NotifyCleans | alertas.py:38-49 | a notification's title and message are each a single line holding no `<` with a `>` after it |
| Poller.Run | alertas.py:75-78 | one pass records one containment flag per alert of the feed; what the pass notifies and records is stated by the `Run` lemmas below |
| Poller.RunSeen | alertas.py:75-78 | after a pass, `seen_alerts` is the old set plus exactly the titles notified |
| Poller.RunNotifiesFresh | alertas.py:75-78 | every alert notified comes from the feed, had an unseen title and contains the user; no title is notified twice in one pass |
| Poller.RunKeepsOrder | alertas.py:75-77 | notifications follow feed order: they form a subsequence of the feed |
| Poller.RunNotifiesMatching | alertas.py:75-78 | the titles notified are exactly the unseen titles of alerts that contain the user; an alert failing containment adds nothing |
| Poller.RunNotifiesFirst | alertas.py:75-78 | when several alerts share a title, the one notified (and so the summary posted) is the first of them whose area contains the user: no earlier alert with that title contained the user |
| Poller.RunProbesUnseen | alertas.py:76 | containment is evaluated for an alert exactly when its title is not in `seen_alerts` at that moment |
| Poller.RunProbes | alertas.py:76-78 | containment is evaluated for alert `i` exactly when its title was unseen before the pass and no earlier alert with that title contained the user |
| Poller.SeenTitleSkipped | alertas.py:76 | an alert whose title is already seen is neither evaluated nor notified |
| Poller.RunAgainQuiet | alertas.py:73-78 | a second pass over the same feed notifies nothing and leaves `seen_alerts` unchanged |
| Poller.CyclesNotifyDisjoint | alertas.py:70-78 | across two consecutive passes, whatever their feeds, no title is notified twice |
| Poller.Watcher.constructor | alertas.py:70 | `seen_alerts` starts empty and nothing has been posted |
| Poller.Watcher.Consider | alertas.py:76-78 | one alert: an unseen title gets its ring closed and evaluated; if inside, one notification is posted and the title recorded; otherwise nothing changes |
| Poller.Watcher.Advance | alertas.py:75-78 | handling alert `i` extends the pass over the first `i` alerts to the first `i + 1` |
| Poller.Watcher.PollCycle | alertas.py:75-78 | after the loop, `seen_alerts`, the posted notifications and every alert's coordinate list are those `Run` gives for the feed as it stood before the loop |

## Left out

- `get_alerts` (alertas.py:17-29): feedparser over the network. A pass takes the alerts as an input sequence. `get_alerts` raises on an entry without `where`; that is not modelled.
- The HTTP post to ntfy.sh and the `print` in `notify` (alertas.py:41-49): a notification becomes an entry appended to `Watcher.sent`. A failed post propagates out of `main`; the model treats posting as always succeeding.
- shapely's `Polygon`, `Point` and `contains` over floating point (alertas.py:60-62): a parameter that answers or raises. Whether a point, including one on the boundary, is inside is up to shapely's `contains`; not modelled.
- The `print` in the `except` branch (alertas.py:64).
- `time.sleep`, the endless `while True` and the argument parsing (alertas.py:73, 79, 82-89): single passes are modelled, and two consecutive passes in `CyclesNotifyDisjoint`.
- Regular-expression engine internals: only the pattern `<.*?>` is modelled, by a direct recursive definition.
- Poller.Watcher.PollCycle: requires the alerts to be distinct objects. `get_alerts` builds a fresh dictionary per entry, so the code never sees the same alert twice in one pass. The model does not cover the aliasing case.
- `is_within_polygon` appends the first vertex even when the ring is already closed (alertas.py:59); the model does the same.
