# Verified models of the reseller-billing backend

The backend bills resellers of VPN panels through a Telegram bot, a web portal and an owner panel. This
project models the parts of it whose behaviour is hardest to see by reading one function, and proves what
they keep over all inputs and all runs. Verify everything with `dafny verify dfyconfig.toml`.

| part | files |
|---|---|
| bidi rewriter of bot messages (`rtl.py`) | `BidiText`, `BidiScan`, `BidiSettle`, `BidiRtl`, `BidiMarks`, `BidiLaws`, `BidiRegions`, `BidiCover`, `BidiCode`, `BidiLines`, `BidiTokens` |
| uuid migration `b1c3e5a7f9d2` | `MergeSpec`, `MergeOutcome`, `MergeRun`, `Upgrade`, `EnforcementSnapshots` |
| reseller hierarchy (`resellers.py`) | `Ancestry`, `SubtreeCounts`, `SubtreeExact`, `SubtreeUsers`, `DeleteWalk`, `TreeRows`, `ResellerTree` |
| login limiter and throttles (`loginsec.py`, `auth.py`) | `Windows`, `Limiter`, `LimiterRuns`, `LimiterExact`, `Throttle`, `ThrottleExact` |
| portal sessions (`portal_auth.py`, `portal.py`) | `Portal`, `PortalRuns`, `PortalTokens` |
| display codes and job phases (`codes.py`, `jobs.py`) | `NumberTheory`, `Codes`, `Schedule` |
| panel links and deep links | `PanelLink`, `PanelLinkLaws`, `DeepLink` |
| shared | `Common` |

Code that changes something step by step is a method or a class here: the scanner and line loops, the
nested merge loops over the tables, the memoised search, the forest builder, the deletion worklist, the
limiter's buckets, the throttle's dictionary and the portal's stored rows. Each method is proved equal to a
specification function, or to an outright property, and the laws below are proved about those functions.
The pure modules are functions. For each part some laws speak of inputs and results alone, in fields and literals
and without the functions that compute them: `BidiLines`, `BidiTokens`, `MergeOutcome`, `SubtreeUsers`, `LimiterExact`,
`ThrottleExact`, `PortalTokens`, the contracts of `Migration.MergeResellers`, `Upgrader.Run` and `Builder.Build`, and
the last sections of `EnforcementSnapshots`, `PanelLinkLaws` and `DeepLink`.

## Where the code and its documentation disagree

- `rtl.py:12` says the rewriter is idempotent. It is not on texts with `<`, perhaps `/`, then U+0130, U+0131
  or U+017F, then a letter or digit: a phantom tag. Under `re.I` these three characters match `i` or `s`, so
  the FSI that the first pass puts behind one creates a word boundary, and the second pass reads a tag that
  swallows text up to the next `>`. `BidiLaws.NotIdempotent` gives a failing text for every such pattern.
  `BidiLaws.Idempotent` proves idempotence whenever the scan meets no live phantom: one outside tags, code and
  isolates, behind which an FSI is in fact inserted. `BidiLaws.StableIffPhantomFree` adds that a text has no
  phantom at all if and only if every piece cut out of it stays stable in front of an open code block.
  For one text and its output, `BidiLaws.IdempotentIffSettled` is exact.
- `rtl.py:12-14` says tags and isolated runs pass through untouched. One with a line end inside can get an RLM
  inside: on `<a`, line end, `href="x">` the second line starts with one (`BidiRegions.SplitAnchor`,
  and `BidiRegions.SplitTag` for every such tag). They are
  untouched exactly if no line that begins inside gets an RLM, so always without a line end
  (`BidiRegions.CopiedExact`).
- `loginsec.py:22` promises a lock of 15 minutes. `int()` at line 74 drops the last fraction of a second, so a
  lock ends when one second or less is left (`LimiterRuns.LockSpan`, an equivalence). The bounds on attempts
  are therefore for 899 seconds.
- `portal_auth.py:67-68` says the session epoch is bumped on unbinding a Telegram link, on deletion and on
  purge. Only the owner's endpoint does so (`resellers.py:690`). The reseller's own removal of a link in the bot
  (`bot/handlers/storefront_setup.py:682-694`) and the deletion of a row bump nothing: an old session goes on
  working exactly if another row is still bound to the account (`PortalRuns.RemovalRevokesNothing`), and works
  again once a row is (`PortalRuns.AcceptedIff`). What is proved of revocation is about the owner's unbinding.
- `resellers.py:100-101` says the counts are sums over own and all descendants, a back-edge counting own users
  only. They are for all users exactly if the parent links have no cycle (`SubtreeExact.TrueIffAcyclic`);
  `SubtreeCounts.CycleCountsTwice` shows what happens on two nodes.
- `codes.py:18-19` says an invoice and a payment with the same id get different codes. They share one exactly
  for ids that are multiples of 45,000,000 (`Codes.SharedCode`).
- `jobs.py:481-482` says no two jobs share a firing minute at their default cadences and exempts only the
  delivery worker. The two-minute heartbeat meets four of the seven other jobs (`Schedule.HeartbeatMeets`).

## Assumptions

- One clock reading per request, readings never going back. The limiter's check, the password check and
  the recording of the outcome form one step, as does every portal request; in the code other requests can run
  in between.
- A token or Telegram payload in a request has passed its signature check. Tokens with a valid signature are
  those minted here.
- Addresses hold no `|`, which separates the parts of the login limiter's keys.
- One idempotent `lower` stands for SQL's `LOWER` and Python's `str.lower`. Timestamps of one column compare like
  the strings `_ts` makes of them. `LIKE` is PostgreSQL's.
- Library functions are parameters with the laws each module writes down as `Lawful`: the Unicode tables behind
  `\w` and `str.isspace`, percent-decoding, `str.lower` on text around a UUID, the normal form of a network location.

## Main results

- Rewriter: `BidiRtl.Rewrite`, `BidiLaws.Idempotent`, `BidiLaws.StableIffPhantomFree`, `BidiLaws.OnlyMarks`,
  `BidiCover.RtlCovers`, `BidiRegions.CopiedExact`, `BidiCode.CodeBlockExact`, `BidiLines.LineBehindCode`,
  `BidiLines.LineOutsideCode`, `BidiTokens.TagToken`, `BidiTokens.RunInside`.
- Migration: `MergeRun.Migration.MergeResellers`, `Upgrade.Upgrader.Run`, `Upgrade.MatchingSame`.
- Hierarchy: `SubtreeExact.TrueIffAcyclic`, `SubtreeUsers.UsersCount`, `DeleteWalk.BranchToDelete`,
  `ResellerTree.Builder.Build`.
- Limiter: `LimiterExact.RepliesExact`, `LimiterRuns.EvictionInvisible`, `LimiterRuns.MapBounded`,
  `LimiterExact.FailuresBounded`, `ThrottleExact.AllowedExact`, `Throttle.WindowBounded`.
- Portal: `PortalTokens.AcceptedExact`, `PortalRuns.Revoked`, `PortalTokens.ExchangeExact`,
  `PortalTokens.ExchangeIssues`, `PortalTokens.TelegramExact`, `PortalTokens.TelegramIssues`, `PortalRuns.LoginOnce`,
  `PortalRuns.TelegramOnce`.
- Arithmetic and links: `Codes.DecodeExact`, `Codes.SharedCode`, `Schedule.MeetIff`, `Schedule.SyncBackupApart`,
  `PanelLinkLaws.RoundTrip`, `DeepLink.AcceptsRoutes`, `DeepLink.FixedPoint`.

## Model

| member | source | states |
|---|---|---|
| BidiRtl.Rewrite | backend/app/bot/rtl.py:46-98 | `rtl()`: the two passes with their loops compute the specification `Rtl` for every text |
| BidiRtl.ScanText | backend/app/bot/rtl.py:50-84 | the scanner loop with its index, output list and code flag computes the recursive `Scan` |
| BidiRtl.NextToken | backend/app/bot/rtl.py:53-84 | each token makes progress, and what it emits plus the scan of the rest is the scan of the whole |
| BidiRtl.MarkText | backend/app/bot/rtl.py:85-98 | the line pass with its running code flag computes `MarkLines` over the split text |
| BidiText.MatchLength | backend/app/bot/rtl.py:27-32 | a match never holds a mark, an angle bracket or a line end, and there is one at every Latin letter |
| BidiLaws.RunMaximal | backend/app/bot/rtl.py:22-32 | at a letter or digit the match is the longest run that ends in a letter or digit, else the single letter, else nothing |
| BidiLaws.MentionInside | backend/app/bot/rtl.py:22-24 | a mention with a Latin letter is isolated whole, its @ inside |
| BidiLaws.CommandInside | backend/app/bot/rtl.py:22-28 | a command is isolated whole, its slash inside |
| BidiLaws.OnlyMarks | backend/app/bot/rtl.py:39-98 | the output is the input with marks inserted and nothing removed, as many FSIs as PDIs |
| BidiCover.ScanCovers | backend/app/bot/rtl.py:46-84 | in the scanner's output for any text, every Latin letter met outside tags, code and isolates lies on one line between an FSI and a PDI with no other of either in between |
| BidiCover.RtlCovers | backend/app/bot/rtl.py:46-98 | and so it does in the output of both passes: the isolate around it arrives whole |
| BidiRegions.MarkedRegion | backend/app/bot/rtl.py:85-98 | for any stretch of a text: the line pass inserts RLMs only, and leaves the stretch unchanged if and only if no line that begins inside it is non-blank, outside code and without an RLM |
| BidiRegions.CopiedExact | backend/app/bot/rtl.py:12-14 | every tag, isolate and piece of code content the scanner meets passes both passes unchanged if and only if no line that begins inside it gets an RLM, so always if it has no line end; around it marks are inserted only |
| BidiRegions.SplitTag | backend/app/bot/rtl.py:94-95 | a tag over two lines at the start of a text does get an RLM inside |
| BidiCode.CodeByteExact | backend/app/bot/rtl.py:12-14 | behind any opening `code` or `pre` tag, attributes included, content that does not leave code passes the scanner unchanged up to any closing tag, and scanning resumes outside code |
| BidiCode.CodeBlockExact | backend/app/bot/rtl.py:46-98 | behind any text, a code block the scanner sees passes both passes unchanged if and only if no line that begins inside it gets an RLM: always if its content is on one line, and whenever the line pass is in code at every line end of the content |
| BidiCode.CodeTags | backend/app/bot/rtl.py:36 | the tags this covers: `code` and `pre`, opening or closing, with any attributes on the same line |
| BidiCode.PlainBlockExact | backend/app/bot/rtl.py:12-14 | in particular for content of any number of lines without `<` and FSI, around any code tags and behind text without them |
| BidiLaws.LinesMarked | backend/app/bot/rtl.py:85-98 | line by line: a line that begins in code or is blank is untouched, every other begins with one inserted or existing RLM |
| BidiLines.LineBehindCode | backend/app/bot/rtl.py:88-98 | behind any text that leads to an opening code tag, content without `<` and a closing tag, whether on the same line or a later one, and any text without code tags, a line that is not blank comes out with an RLM |
| BidiLines.LineBehindBlock | backend/app/bot/rtl.py:88-98 | in particular behind plain text and a code block, in terms of the text alone |
| BidiLines.LineOutsideCode | backend/app/bot/rtl.py:88-98 | behind any text in which nothing begins a code tag, whatever else it holds, a line that is not blank comes out with an RLM |
| BidiLines.FirstLineMarked | backend/app/bot/rtl.py:94-95 | so does the first line |
| BidiLines.FlagTag | backend/app/bot/rtl.py:92-93 | behind a code tag the line pass is in code exactly if the tag opens, whatever came before |
| BidiLines.FlagNone | backend/app/bot/rtl.py:92-93 | text in which nothing begins a code tag leaves the line pass's flag alone |
| BidiLines.BlankFixed | backend/app/bot/rtl.py:94-97 | a blank text of any number of lines is left alone |
| BidiTokens.TagIff | backend/app/bot/rtl.py:35 | the scanner takes for tags exactly the fourteen names behind `<` or `</`, in any letter case, with no word character behind them |
| BidiTokens.CodeTagIff | backend/app/bot/rtl.py:36 | the line pass takes for code tags exactly `code` and `pre` so written and closed on the same line |
| BidiTokens.TagToken | backend/app/bot/rtl.py:64-74 | a tag is copied whole; `code` and `pre` set the code flag, their closing tags clear it, the other twelve leave it |
| BidiTokens.RunInside | backend/app/bot/rtl.py:27-43 | a run of Latin letters, digits and the fourteen symbols that cannot be extended to another letter or digit is isolated as one if it holds a Latin letter, else left as it is |
| BidiTokens.LoneCharacter | backend/app/bot/rtl.py:31 | a Latin letter no run goes on from is isolated alone, a digit is not |
| BidiTokens.OtherCharacter | backend/app/bot/rtl.py:28-31 | no other character starts an isolate, but a slash before a Latin letter and an at sign before a mention |
| BidiScan.SettledFixed | backend/app/bot/rtl.py:46-84 | a text in which the scanner meets no bare Latin letter is a fixed point of the scan |
| BidiLaws.FixedIffSettled | backend/app/bot/rtl.py:46-84 | the scan leaves a text alone if and only if it meets no bare Latin letter in it |
| BidiSettle.ScanSettles | backend/app/bot/rtl.py:46-84 | without live phantoms a second scan of the output meets no bare letter, although lone FSIs pair with inserted PDIs and the code flags of both scans differ |
| BidiScan.SettledInsert | backend/app/bot/rtl.py:94-95 | inserting an RLM at the start of a line keeps a text settled |
| BidiRtl.RtlSettled | backend/app/bot/rtl.py:46-98 | the whole output, line marks included, is settled |
| BidiLaws.Idempotent | backend/app/bot/rtl.py:12-14 | `rtl(rtl(s)) == rtl(s)` for every text whose scan meets no live phantom: unpaired FSI, unclosed tags, stray `<`, many lines |
| BidiLaws.IdempotentIffSettled | backend/app/bot/rtl.py:12-14 | for every text, a second pass changes nothing if and only if it meets no bare Latin letter |
| BidiLaws.NotIdempotent | backend/app/bot/rtl.py:35 | each excluded pattern breaks idempotence on a concrete text |
| BidiLaws.StableIffPhantomFree | backend/app/bot/rtl.py:35-37 | a text has no phantom tag if and only if every piece of it is stable in front of an open code block |
| MergeRun.ChooseKeeper | backend/alembic/versions/b1c3e5a7f9d2_lowercase_uuids.py:85-94 | the keeper has most invoices; on a tie a bound chat if any has one; on a further tie the newest sighting, none being oldest; on a full tie the lowest id |
| MergeRun.GroupRows | backend/alembic/versions/b1c3e5a7f9d2_lowercase_uuids.py:68-70 | the groups split all rows by panel and lower-cased uuid, each row in exactly its own group |
| MergeRun.Migration.ResolveOne | backend/alembic/versions/b1c3e5a7f9d2_lowercase_uuids.py:118-144 | one loser invoice: aborts exactly when both invoices of the period are settled, else drops the draft with its lines and ledger rows |
| MergeRun.Migration.ResolveCollisions | backend/alembic/versions/b1c3e5a7f9d2_lowercase_uuids.py:100-144 | the loop aborts if and only if some period has a non-draft invoice on both sides, else exactly the giving-way drafts are gone |
| MergeRun.Migration.MergeLoser | backend/alembic/versions/b1c3e5a7f9d2_lowercase_uuids.py:96-197 | the body of the inner loop carries out the specification `Merge`, and fails exactly when that does |
| MergeRun.Migration.MergeGroup | backend/alembic/versions/b1c3e5a7f9d2_lowercase_uuids.py:85-197 | after a group only the row is left that has most invoices and so on, the invariant holds and the row and the invoices of every reseller outside the group are as before; an abort means the original tables collide |
| MergeRun.Migration.MergeResellers | backend/alembic/versions/b1c3e5a7f9d2_lowercase_uuids.py:60-197 | completes if and only if no two settled invoices of one period and no two bots belong to one panel and uuid up to case. Then one row of each is left, the one with most invoices in the original tables, then a chat, the newest sighting, the lowest id; every settled invoice survives with its period, status and amount, no period loses its last invoice, every other row points at the row left, details go exactly with their invoices, and empty columns are filled from a row merged away. Else nothing has changed |
| MergeOutcome.OutcomeIs | backend/alembic/versions/b1c3e5a7f9d2_lowercase_uuids.py:60-197 | the invariant every merge keeps amounts to that outcome, stated row by row on the columns |
| MergeOutcome.ClashIs | backend/alembic/versions/b1c3e5a7f9d2_lowercase_uuids.py:125-131 | what the migration must abort on, stated on the columns |
| MergeSpec.VictimsAreDrafts | backend/alembic/versions/b1c3e5a7f9d2_lowercase_uuids.py:111-144 | without a conflict only drafts give way, and one of each colliding pair does |
| MergeSpec.MergeConsistent | backend/alembic/versions/b1c3e5a7f9d2_lowercase_uuids.py:146-197 | through a merge (reseller, period) stays unique, each reseller keeps at most one bot and no row points at the deleted reseller |
| MergeSpec.MergeKeeps | backend/alembic/versions/b1c3e5a7f9d2_lowercase_uuids.py:99-197 | every merge keeps the whole invariant: non-draft invoices survive with their amounts within their group, a draft goes only where another invoice of its group and period stays, payments, deliveries, actions and bots all survive, and exactly the loser is removed |
| MergeSpec.PeriodsStep | backend/alembic/versions/b1c3e5a7f9d2_lowercase_uuids.py:132-144 | every period a group had an invoice for it still has one for |
| MergeSpec.OwnInvoicesStep | backend/alembic/versions/b1c3e5a7f9d2_lowercase_uuids.py:132-136 | a remaining reseller's own invoices stay its own, and one of them goes only for a settled invoice of the same group and period |
| MergeSpec.MergeFrame | backend/alembic/versions/b1c3e5a7f9d2_lowercase_uuids.py:96-197 | a merge leaves the row and the invoices of every third reseller alone |
| MergeSpec.OverridesStep | backend/alembic/versions/b1c3e5a7f9d2_lowercase_uuids.py:177-196 | a survivor keeps its own overrides, a column set anywhere in a group does not become empty, and every override comes from the same column of a row of the group |
| MergeSpec.AbortCollides | backend/alembic/versions/b1c3e5a7f9d2_lowercase_uuids.py:125-131 | an abort in the middle of the run traces back to a collision in the original tables |
| MergeSpec.MergedNotColliding | backend/alembic/versions/b1c3e5a7f9d2_lowercase_uuids.py:171-176 | colliding tables cannot be merged to the end, whatever the order |
| Upgrade.KeepBest | backend/alembic/versions/b1c3e5a7f9d2_lowercase_uuids.py:205-216 | the loop keeps exactly the winners, and every key still has one that no row of the key beats |
| Upgrade.WinnersUnique | backend/alembic/versions/b1c3e5a7f9d2_lowercase_uuids.py:211-213 | one row per key is left |
| Upgrade.Upgrader.DedupSnapshotsAndMeters | backend/alembic/versions/b1c3e5a7f9d2_lowercase_uuids.py:200-236 | of each panel and uuid up to case the latest snapshot stays, none being oldest, and of each such user and period the meter with most extra gigabytes; higher ids break ties; the rows are unchanged |
| Upgrade.SnapshotsAre | backend/alembic/versions/b1c3e5a7f9d2_lowercase_uuids.py:200-216 | after lower-casing too: each user has one snapshot left, its latest, with both uuids in lower case |
| Upgrade.MetersAre | backend/alembic/versions/b1c3e5a7f9d2_lowercase_uuids.py:218-236 | each user and period has one meter left, its largest, with the uuid in lower case |
| Upgrade.LinesAre | backend/alembic/versions/b1c3e5a7f9d2_lowercase_uuids.py:270-282 | every invoice line stays, its uuids in lower case, except a user uuid of the form `storefront`, any character, `fee`, any character, anything |
| Upgrade.SnapshotsCanonical | backend/alembic/versions/b1c3e5a7f9d2_lowercase_uuids.py:200-216 | snapshots end up lower case and unique by (panel, uuid) |
| Upgrade.MetersCanonical | backend/alembic/versions/b1c3e5a7f9d2_lowercase_uuids.py:218-236 | meters end up lower case and unique by (panel, uuid, period) |
| Upgrade.ResellersCanonical | backend/alembic/versions/b1c3e5a7f9d2_lowercase_uuids.py:239-251 | resellers end up lower case and unique by (panel, uuid) |
| Upgrade.SnapshotsStable | backend/alembic/versions/b1c3e5a7f9d2_lowercase_uuids.py:200-216 | deduplicating and lower-casing canonical snapshots changes nothing |
| Upgrade.MetersStable | backend/alembic/versions/b1c3e5a7f9d2_lowercase_uuids.py:218-236 | deduplicating and lower-casing canonical meters changes nothing |
| Upgrade.ParentsResolve | backend/alembic/versions/b1c3e5a7f9d2_lowercase_uuids.py:246-251 | a parent link that matched a row up to case, even a row merged away, now matches exactly, and only the survivor of that row's group |
| Upgrade.MatchingSame | backend/alembic/versions/b1c3e5a7f9d2_lowercase_uuids.py:246-251 | between remaining rows a parent link matches exactly after the upgrade if and only if it matched up to case before |
| Upgrade.DanglingSame | backend/alembic/versions/b1c3e5a7f9d2_lowercase_uuids.py:246-251 | a remaining row's link finds a row exactly after the upgrade if and only if it found one up to case before, so dangling links still dangle |
| Upgrade.Upgrader.Run | backend/alembic/versions/b1c3e5a7f9d2_lowercase_uuids.py:328-333 | `upgrade()` completes if and only if nothing collides; then the merge's outcome holds, each key has its best snapshot and meter left, lines and live actions lose nothing, and all keys are lower case and unique; a failed run changes nothing, and neither does a second run |
| EnforcementSnapshots.LowerKeysLookup | backend/alembic/versions/b1c3e5a7f9d2_lowercase_uuids.py:285-309 | case-colliding JSON keys merge, the last one's value surviving, lower-cased where values are uuids |
| EnforcementSnapshots.RewriteActionLowered | backend/alembic/versions/b1c3e5a7f9d2_lowercase_uuids.py:291-325 | a live action ends up lower case in every uuid key and list, with no progress table missing; a reverted or dry-run action is left alone |
| EnforcementSnapshots.ActionIs | backend/alembic/versions/b1c3e5a7f9d2_lowercase_uuids.py:291-325 | no entry of a live action is lost: every key is there in lower case, once, with the value of the last key of that form, and every list has its entries in order; a missing progress table becomes empty; any other action is unchanged |
| EnforcementSnapshots.LowerKeysTwice | backend/alembic/versions/b1c3e5a7f9d2_lowercase_uuids.py:285-309 | lower-casing keys twice, order of the object included, is lower-casing once |
| EnforcementSnapshots.RewriteActionTwice | backend/alembic/versions/b1c3e5a7f9d2_lowercase_uuids.py:291-325 | rewriting an action's stored JSON a second time changes nothing |
| Ancestry.SiblingsDisjoint | backend/app/api/resellers.py:115 | with acyclic links the subtrees of two siblings share nothing |
| Ancestry.SubtreeSplits | backend/app/api/resellers.py:112-118 | a subtree is its root and, disjointly, the subtrees of the root's children |
| SubtreeCounts.SumBelow | backend/app/api/resellers.py:113-118 | the sum over a subtree, each member once, is the own count plus the children's sums |
| SubtreeCounts.SearchTrue | backend/app/api/resellers.py:107-122 | with acyclic links and distinct uuids the memoised search returns the sum over the whole subtree, each member once, and every memo entry is true |
| SubtreeCounts.CountsTrue | backend/app/api/resellers.py:96-126 | whatever the node order, every uuid gets the sum over itself and all its descendants |
| SubtreeUsers.UsersCount | backend/app/api/resellers.py:96-126 | on acyclic links users count exactly for their own reseller and every one above it, once each: more users at one raise those totals by their number and no other, and without users every total is 0 |
| SubtreeExact.TrueIffAcyclic | backend/app/api/resellers.py:96-126 | for distinct uuids the counts are the sums over the subtrees for all users if and only if the parent links have no cycle |
| SubtreeExact.CycleNotTrue | backend/app/api/resellers.py:110-111 | on any cycle, of any length and among any other nodes, some distribution of users is counted wrongly |
| SubtreeExact.SearchExtends | backend/app/api/resellers.py:107-122 | a search never changes an entry, never enters a node being visited, and from outside every cycle enters none on one |
| SubtreeCounts.CycleCountsTwice | backend/app/api/resellers.py:110-111 | the witness on two nodes: the total of the one searched first holds its own users twice |
| SubtreeCounts.Counter.Dfs | backend/app/api/resellers.py:107-122 | the search, changing both memos and the visiting set in place, terminates on any links and carries out `Search` for both counts |
| SubtreeCounts.Counter.DfsChildren | backend/app/api/resellers.py:115-118 | the loop over the children adds up their searches, each starting from the memos the previous one left |
| SubtreeCounts.Counter.Count | backend/app/api/resellers.py:124-126 | every uuid gets an entry on any links, and with acyclic ones all entries are true |
| DeleteWalk.ClosedHoldsReached | backend/app/api/resellers.py:377-385 | what the walk closes under child links contains everything reachable |
| DeleteWalk.ReachedIff | backend/app/api/resellers.py:377-385 | reached in some number of steps is what a path of parent links leads to |
| DeleteWalk.Visit | backend/app/api/resellers.py:379-385 | one expansion keeps the set of seen rows sound and complete and the deletion list exactly its absent rows |
| DeleteWalk.BranchToDelete | backend/app/api/resellers.py:363-385 | on any parent graph the worklist terminates with exactly the absent rows that a path of parent links leads up from to the target, each once, present rows walked through |
| TreeRows.SortSorts | backend/app/api/resellers.py:483 | siblings are a permutation of the rows in name order |
| TreeRows.SortStable | backend/app/api/resellers.py:483 | siblings of one name keep their order |
| TreeRows.NameLeqIff | backend/app/api/resellers.py:483 | name order is that of Python's strings: a proper prefix first, else the first difference decides |
| TreeRows.Count | backend/app/api/resellers.py:533-534 | `_count` is the number of rows in the flattened forest |
| ResellerTree.Builder.Node | backend/app/api/resellers.py:480-499 | adds only rows not emitted before, each once, and counts them truly; a cycle is flagged exactly if some row of that parent is missing among the children or a child flags one; in a well-formed table the tree is exact and covers exactly the subtree |
| ResellerTree.Builder.AddRoot | backend/app/api/resellers.py:513-519 | a root is built whether or not the search term keeps it, and is listed exactly if some row of its tree matches |
| ResellerTree.Builder.Build | backend/app/api/resellers.py:459-530 | terminates on any links; with a search term exactly the roots with a matching row in their tree are listed, each once and in order; before filtering, every non-owner row is listed exactly once and no owner row, with true counts and flags; children come in name order, and so do the natural roots and, behind them, the roots made for cyclic leftovers; in a well-formed table nesting is the parent relation and no cycle is flagged |
| ResellerTree.ExactFromChildren | backend/app/api/resellers.py:493-498 | exact children in order make an exact node whose count is the size of its subtree less one |
| ResellerTree.RootFree | backend/app/api/resellers.py:501-513 | nothing below a natural root was emitted before it |
| ResellerTree.ClimbToRoot | backend/app/api/resellers.py:510 | in a well-formed table every non-owner lies below a natural root |
| ResellerTree.AllEmitted | backend/app/api/resellers.py:520-529 | in a well-formed table the loop for cyclic leftovers finds none |
| Limiter.LoginLimiter.EvictBuckets | backend/app/core/loginsec.py:39-55 | keeps every bucket whose lock runs or that has a failure within 900 seconds, up to 50,000; one goes only when that many are left, and then none of its times is later than all of a kept one's |
| Limiter.LoginLimiter.IsLockedFor | backend/app/core/loginsec.py:66-75 | the larger remaining lock of the two buckets in whole seconds, never negative |
| Limiter.LoginLimiter.RecordFailure | backend/app/core/loginsec.py:78-96 | both buckets take the failure after eviction, a full one locking and forgetting; the reply counts the attempts left for the IP |
| Limiter.LoginLimiter.ResetFor | backend/app/core/loginsec.py:99-103 | a success forgets both buckets and no other |
| Limiter.LoginLimiter.HandleLogin | backend/app/api/auth.py:86-132 | the handler's order of lock check, failure recording and reset; a missing code burns no attempt |
| LimiterRuns.LoginSame | backend/app/core/loginsec.py:39-96 | one request keeps two limiters indistinguishable although only one of them evicts, and their replies agree |
| LimiterRuns.EvictionInvisible | backend/app/core/loginsec.py:39-96 | in every run within the cap each reply is that of a limiter that never forgets |
| LimiterExact.RepliesExact | backend/app/api/auth.py:86-132 | in every run within the cap each reply follows from the failures before it: an attempt is refused exactly if a fifth failure of its username from its address, or a thirtieth of its username, within 900 seconds and behind the last lock, came at most 899 seconds ago, with the whole seconds left; a failure leaves no attempt exactly if it locks; failures of other usernames play no part, and those from other addresses only in the count to thirty |
| LimiterExact.FailuresBounded | backend/app/core/loginsec.py:19-22 | and any closed stretch of 899 seconds holds at most 5 of the former failures since the last successful login and 30 of the latter |
| LimiterRuns.MapBounded | backend/app/core/loginsec.py:32-36 | in every run the map holds at most 50,002 buckets |
| LimiterRuns.LockSpan | backend/app/core/loginsec.py:74 | a lock refuses attempts until one second before it runs out, and not after |
| LimiterRuns.LeftIsHonest | backend/app/core/loginsec.py:78-96 | none left means the IP is locked for 900 seconds from now, some left means it is not locked |
| LimiterRuns.BucketInv | backend/app/core/loginsec.py:86-91 | a bucket lists exactly the recent failures since its last lock, and no six (or 31) failures of a key lie within 899 seconds |
| LimiterRuns.AttemptsBounded | backend/app/core/loginsec.py:19-22 | between successful logins any closed stretch of 899 seconds holds at most 5 recorded failures of one username from one IP and 30 of one username |
| Windows.SpacedBound | backend/app/core/loginsec.py:87-90 | times of which no cap + 1 in a row fit an interval put at most cap into any interval of that length |
| Throttle.SlidingWindow.Allowed | backend/app/core/loginsec.py:128-165 | both throttles, clean-up included, carry out the specification `Call`; no other address's entry changes, and beyond 50,000 entries only those with a hit within 60 seconds stay |
| Throttle.CleanUpMirrors | backend/app/core/loginsec.py:132-134 | the clean-up drops no entry that a later call could tell from an empty one |
| Throttle.AllowedIffWindowOpen | backend/app/core/loginsec.py:135-141 | a call is allowed if and only if fewer than the limit were allowed for its IP in the last 60 seconds, whatever other IPs did and whatever was cleaned up |
| ThrottleExact.AllowedExact | backend/app/core/loginsec.py:135-141 | the same by counting the earlier calls themselves: those of its address that were allowed less than 60 seconds before |
| ThrottleExact.EndpointsExact | backend/app/core/loginsec.py:123-165 | with 30 captcha fetches and 20 passkey starts |
| Throttle.WindowBounded | backend/app/core/loginsec.py:128-141 | every half-open window of 60 seconds holds at most the limit of allowed calls of an IP |
| Throttle.EndpointsBounded | backend/app/core/loginsec.py:123-165 | 30 captcha fetches and 20 passkey starts per window |
| Portal.Server.ConsumeNonce | backend/app/api/portal.py:86-97 | prunes and inserts, or leaves the nonces as they were when the key is taken |
| Portal.Server.DoExchange | backend/app/api/portal.py:64-99 | the exchange handler carries out one step of the protocol; whose session it opens is said by `PortalTokens.ExchangeIssues` |
| Portal.Server.AuthTelegram | backend/app/api/portal.py:143-214 | the Telegram handler carries out one step of the protocol |
| Portal.Server.Authenticate | backend/app/core/portal_auth.py:164-201 | accepted exactly if unexpired, bound to some row and of the current epoch |
| Portal.Server.DoRefresh | backend/app/api/portal.py:102-116 | the refresh handler carries out one step of the protocol |
| Portal.Server.BumpEpoch | backend/app/core/portal_auth.py:64-80 | the first bump lands on 2, the value after the implicit 1, later ones add one, no chat changes nothing |
| Portal.Server.UnbindTelegram | backend/app/api/resellers.py:673-695 | the epoch of the chat bound before is bumped and only this row is unbound |
| Portal.Server.CreateLogin | backend/app/core/portal_auth.py:45-52 | minting a link carries out one step of the protocol |
| Portal.Server.DoRemoveLink | backend/app/bot/handlers/storefront_setup.py:682-694 | the bot's removal clears the caller's own row and bumps no epoch |
| PortalRuns.NeverAhead | backend/app/core/portal_auth.py:55-92 | in every run no session token is ahead of its account's epoch |
| PortalRuns.EpochCounts | backend/app/core/portal_auth.py:64-80 | between two points of a run an epoch grows by the number of unbindings by the owner, and tokens only accumulate |
| PortalRuns.Revoked | backend/app/core/portal_auth.py:64-70 | after an unbinding by the owner no token the account had is ever accepted or renewed again |
| PortalRuns.AcceptedIff | backend/app/core/portal_auth.py:164-201 | an issued token is accepted later if and only if it is unexpired, some row is bound to its account, and no unbinding by the owner came in between |
| PortalRuns.RemovalRevokesNothing | backend/app/bot/handlers/storefront_setup.py:682-694 | after a reseller's own removal of a link in the bot, a session that worked still works if and only if another row is bound to its account |
| PortalRuns.RefreshKeepsEpoch | backend/app/api/portal.py:102-116 | a refreshed token carries the epoch of the one it came from, so a chain of refreshes cannot outlive a revocation |
| PortalRuns.HeldIff | backend/app/api/portal.py:83-97 | a nonce blocks a request if and only if it was consumed at most 900 seconds earlier, although expired nonces are pruned by every request |
| PortalRuns.LoginsExpire | backend/app/core/portal_auth.py:45-52 | any link that exists at some moment of a run expires within 900 seconds of it |
| PortalRuns.ExchangeIff | backend/app/api/portal.py:64-99 | when exactly an exchange succeeds, in terms of the run before it |
| PortalTokens.ExchangeExact | backend/app/api/portal.py:64-99 | an exchange succeeds if and only if its link was minted, has not run out, leads to an account some row is bound to and, with a jti, opened no session in the last 900 seconds |
| PortalTokens.ExchangeIssues | backend/app/api/portal.py:98-99 | it opens a session of the account its link was minted for, at that account's epoch, for 30 days |
| PortalTokens.TelegramExact | backend/app/api/portal.py:143-210 | a Telegram login succeeds if and only if its payload is dated, at most 900 seconds old and not used in the last 900 seconds, its hash has 64 characters, and one row holds both the uuid and the proven account |
| PortalTokens.TelegramIssues | backend/app/api/portal.py:212-214 | it opens a session of the proven account, which owns a row of the uuid |
| PortalTokens.RefreshIssues | backend/app/api/portal.py:102-116 | a refresh opens a session of the account of the one traded in, which was issued before |
| PortalTokens.SessionsOnlyBy | backend/app/api/portal.py:64-214 | no other request opens a session |
| PortalTokens.AcceptedExact | backend/app/core/portal_auth.py:164-201 | an issued session is accepted, or renewed, if and only if it has not run out, some row is bound to its account and the owner unbound none of the account since |
| PortalTokens.LinksMinted | backend/app/core/portal_auth.py:45-52 | the links that exist are those minted, each for its own account |
| PortalTokens.MintedFor | backend/app/core/portal_auth.py:45-52 | a link names the account it was minted for and lasts 15 minutes less a fraction of a second |
| PortalTokens.SessionsIssued | backend/app/core/portal_auth.py:83-92 | the sessions that exist are those issued |
| PortalTokens.EpochIs | backend/app/core/portal_auth.py:55-80 | an account's epoch is one more than the owner's unbindings of its rows so far |
| PortalTokens.RowsChange | backend/app/api/resellers.py:673-695 | an unbinding or a removal clears the account of one row, and of no other; no login, refresh or access changes a row |
| PortalRuns.LoginOnce | backend/app/api/portal.py:83-97 | a link with a jti is exchanged at most once in any run |
| PortalRuns.TelegramOnce | backend/app/api/portal.py:188-210 | a payload dated no later than its first use is accepted at most once, whichever uuids are asked for |
| Codes.RoundTrip | backend/app/core/codes.py:49-65 | decoding inverts encoding for all ids 1 to 89,999,999, for both kinds |
| Codes.DecodeExact | backend/app/core/codes.py:49-65 | a code decodes to an id if and only if it is that id's code and the id is in range |
| Codes.Distinct | backend/app/core/codes.py:8-12 | two ids in range never share a code of one kind |
| Codes.Neighbours | backend/app/core/codes.py:8-12 | codes of neighbouring ids lie 73,939,133 or 16,060,867 apart, of payments 51,345,271 or 38,654,729: never in sequence |
| Codes.Code | backend/app/core/codes.py:24-39 | every code has 8 digits, whatever the id, even one that is no integer |
| Codes.SharedCode | backend/app/core/codes.py:18-21 | an invoice and a payment of one id share a code if and only if the id is a multiple of 45,000,000 |
| NumberTheory.InverseInverts | backend/app/core/codes.py:42-46 | the extended Euclidean algorithm yields a modular inverse of every coprime multiplier |
| Schedule.MeetIff | backend/app/scheduler/jobs.py:57-65 | two interval jobs ever share a minute if and only if the gcd of their periods divides the distance of their offsets |
| Schedule.StoredCadences | backend/app/scheduler/jobs.py:93-113 | which stored setting drives which job and from which minute on: a value in range is used as it is, one outside is cut to the range, a missing one is replaced by the default |
| Schedule.SyncBackupApart | backend/app/scheduler/jobs.py:523-529 | whatever values are stored in the settings, a sync and a backup fire at least 25 minutes apart, for all time |
| Schedule.NeverShareAMinute | backend/app/scheduler/jobs.py:481-493 | at the default minute cadences, and any hour cadences, no two of the seven staggered jobs share a minute |
| Schedule.HeartbeatMeets | backend/app/scheduler/jobs.py:548-550 | which staggered jobs the heartbeat meets: exactly enforcement, reaper, auto-renew and backup |
| PanelLink.Parse | backend/app/bot/matching.py:60-107 | the candidate loop picks the first URL that mentions the first UUID, as in the specification `ParseLink` |
| PanelLinkLaws.RoundTrip | backend/app/bot/matching.py:60-107 | `parse_link` inverts `admin_link`, also among other words and unrelated URLs and in front of `)`, `.`, `,` or `]`, when no UUID comes before the link's own and no earlier URL decodes to a mention of it; of the tag 255 characters are kept |
| PanelLinkLaws.PlainRoundTrip | backend/app/bot/matching.py:60-107 | with a proxy path of plain segments everything comes back as printed but for the letter case of the uuid, the normal form of the host and the tag's length |
| PanelLinkLaws.UuidFound | backend/app/bot/matching.py:62-66 | a text has a reply if and only if it holds a UUID, and the reply's is the first, in lower case |
| PanelLinkLaws.UuidIff | backend/app/bot/matching.py:14-16 | a UUID is 8, 4, 4, 4 and 12 hexadecimal digits between hyphens |
| PanelLinkLaws.BareUuid | backend/app/bot/matching.py:68-89 | a UUID in a text without any link is returned alone |
| PanelLinkLaws.BareLink | backend/app/bot/matching.py:80-88 | a link that lacks only its scheme reads like the whole link |
| PanelLinkLaws.TokenRoundTrip | backend/app/models/panel.py:113-117 | reading a printed link back gives the uuid, the normalised host, the normalised proxy path of any number of segments, and the tag |
| PanelLinkLaws.LinkPicked | backend/app/bot/matching.py:73-79 | the link, with `http` or `https` in any letter case, is one token of the text and the first that mentions the uuid |
| PanelLinkLaws.HostOfBase | backend/app/bot/matching.py:27-50 | the host of a printed link normalises as the panel's own host does |
| PanelLinkLaws.PathAgain | backend/app/bot/matching.py:53-57 | splitting and joining a path does not change what it normalises to |
| DeepLink.AcceptsExactly | backend/app/core/portal_deeplink.py:34-73 | accepted are exactly the texts of 1 to 512 characters whose one percent-decoding is prefix, digits, registered suffix; every other rejection is implied |
| DeepLink.AcceptsRoutes | backend/app/core/portal_deeplink.py:34-73 | the same with the prefix, the limit of 512 and the thirteen routes written out |
| DeepLink.RouteValue | backend/app/core/portal_deeplink.py:69-73 | the result is the decoded path without leading zeros of the number and without a bare slash at the end |
| DeepLink.ValueOf | backend/app/core/portal_deeplink.py:69-73 | the returned path is the prefix, the number without leading zeros and the suffix without a bare slash |
| DeepLink.FixedPoint | backend/app/core/portal_deeplink.py:34-81 | the returned path validates to itself and `parse_shop_id` of it is the original number |

## Left out

- BidiLaws.Idempotent: is stated one way; a live phantom can still be harmless, for example when no `>` follows it. The exact condition for one text is that of `BidiLaws.IdempotentIffSettled`, which looks at the output.
- SubtreeExact.TrueIffAcyclic: does not say how far off a count on a cycle is; that depends on the order of the nodes.
- LimiterRuns.EvictionInvisible: says nothing of runs with more than 50,000 live buckets, where forgetting is the point; the map's bound and the order of eviction are proved for all runs.
- LimiterRuns.AttemptsBounded: counts failures within the cap only, since an evicted bucket starts over.
- LimiterExact.RepliesExact: is about runs within the cap for the same reason.
- BidiLines.LineBehindCode: is stated for content without `<`, since a tag inside a code block can itself open or close code.
- PanelLinkLaws.RoundTrip: is stated for proxy paths and tags without percent escapes or spaces. A space ends the link, an escape in a tag comes back decoded, and a tag ending in `)`, `.`, `,` or `]` comes back trimmed; an escaped proxy path is compared after decoding, which the laws assumed of `unquote` do not cover.
- `urlsplit` errors, IDNA and port parsing, and the search for a link without a scheme (`matching.py:36-50`, `matching.py:80-88`): parameters of the model.
- `set_host_aliases` (`panel.py:100-111`): a normalise-and-deduplicate loop that adds an easy member.
- Signatures, HMAC, bcrypt, TOTP, WebAuthn and captcha images: a verified token or outcome is an input.
- Several requests interleaved within one handler: each request is one step.
- `_usage_counts` beyond the subtree sums: one grouped SQL query per panel.
- The uniqueness of rows in the middle of one bulk `UPDATE`: a statement is one step. Foreign keys from deliveries and actions to invoices are not followed.
- What `delete_absent_reseller` does with the selected rows: payments, snapshots and the ledger archive (`resellers.py:387` and on).
- Cron jobs, misfire grace and the job store of `register`: library behaviour.
- `c2d4f6b8a1e3` (transaction hashes), invoice status changes, storefront wallet and delivery, metering and dunning: outside these models.
- HTTP, SQL dialects, Telegram, files, the frontend and schema-only migrations.
