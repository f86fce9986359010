# hetznerbot offer pipeline in Dafny

A model of the core of hetznerbot, a Telegram bot that watches Hetzner's
server auction. The model covers:

- **Disk groups.** `populate_disk_data` coalesces the upstream disk lists of
  an offer into groups of one type and size.
- **Reconciliation.** `update_offers` folds a batch of upstream offers into
  the stored offers:
  - it upserts each offer by key;
  - it computes the price in cents, IPv4 fee included;
  - it rewrites the disk groups only when their set changed;
  - on a price change it resets the relation flags;
  - finally it deactivates every offer missing from the batch.
- **Matching.** `check_offer_for_subscriber` is the subscriber's query,
  written as a predicate over one offer. After the query, the
  offer/subscriber relations are brought in line with the matching offers.
- **Formatting.** `format_offers` selects the relations to report and marks
  them notified. It picks the "(New)" or "(Price reduction)" tag and the
  largest RAID5/RAID6 pool, and hands the rendered blocks to `split_text`.
- **Chunking.** `split_text` groups text blocks greedily into messages
  shorter than Telegram's 4096 characters, at most `max_chunks` of them.
- **Settings.** The `/set <name> <value>` command (`set_parameter`)
  validates one subscriber setting and stores it.

Modules:

- `Models`: the records (offer, disk group, CPU row, subscriber, relation,
  upstream record).
- `StringOps`: the Python string built-ins involved: `strip`, `split(" ")`,
  `int()` and `str()`.
- `Text`: `split_text`.
- `Disks`: coalescing, RAID pools, and the size and type labels.
- `Reconcile`: `update_offers` as a function over the stored offers and
  relations.
- `Matching`: the query predicate, and the relation bookkeeping as a
  relation between the relations before and after.
- `Formatting`: `format_offers` as a function.
- `Commands`: `set_parameter` as a function from the subscriber and the
  message text to the new subscriber and the reply.
- `Sessions`: the database session as a class `Store`. Its fields are the
  offer table (a map plus the storage order of its rows) and the relation
  table (a sequence). Its methods are the imperative loops of
  `update_offers`, `check_offer_for_subscriber`, `check_offers_for_subscribers`,
  `format_offers` and `/set`. Each method's new state, and its result, is
  proved equal to a function of the old state and the inputs:
  `Reconcile.UpdateOffers` (or no change, when the call raises),
  `Matching.Sync`, `Matching.SyncAll`, `Formatting.FormatOffers` and
  `Commands.SetParameter`. Each method is also proved to keep the schema's
  constraints:
  - every offer is filed under its id;
  - every relation refers to a stored offer;
  - there is one relation per (offer, subscriber) pair.

## Model

| member | source | states |
|---|---|---|
| StringOps.Strip | hetznerbot/helper/hetzner.py:82 | `str.strip()`: the result is the infix of the input left once the whitespace at both ends is dropped, and it neither starts nor ends with whitespace. A string with no whitespace at its ends is returned unchanged. |
| StringOps.StripIdempotent | hetznerbot/helper/hetzner.py:82 | Stripping a stripped CPU name changes nothing. |
| StringOps.SplitOn | hetznerbot/commands.py:41 | `str.split(" ")`: at least one piece, and no piece contains the separator. |
| StringOps.JoinSplit | hetznerbot/commands.py:41 | Joining the pieces of a split with the separator gives back the text. |
| StringOps.SplitJoin | hetznerbot/commands.py:41 | Splitting a join of separator-free pieces gives back the pieces. |
| StringOps.SplitCount | hetznerbot/commands.py:41 | A split has exactly one piece more than the text has separators. |
| StringOps.IntToStringParses | hetznerbot/commands.py:106 | `int()` reads the decimal form of every integer back as that integer. |
| Text.SplitText | hetznerbot/helper/text.py:5-35 | The loop, with its running count and early return, returns exactly `Chunks(lines, max_chunks)`. The lemmas below state what those chunks are. |
| Text.ChunkCountBound | hetznerbot/helper/text.py:25-35 | For `max_chunks >= 1` there are at most `max_chunks` chunks. |
| Text.ChunksNonEmpty | hetznerbot/helper/text.py:34-35 | There is always at least one chunk. |
| Text.WholeLinesInOrder | hetznerbot/helper/text.py:14-35 | Each chunk is the `"\n\n"` join of a group of whole lines. Read in order, the groups are a prefix of the input. |
| Text.LengthBound | hetznerbot/helper/text.py:18-28 | A chunk of two or more lines is shorter than 4096 characters. |
| Text.ShortLinesShortChunks | hetznerbot/helper/text.py:18-28 | When every line is shorter than 4096 characters, so is every chunk. |
| Text.OverflowDropsTail | hetznerbot/helper/text.py:25-32 | Either every line is kept, or there are exactly `max_chunks` chunks and a non-empty tail of the input is dropped. |
| Text.NoBoundNoLoss | hetznerbot/helper/text.py:31-32 | With `max_chunks < 1` the early return never happens and every line is kept. |
| Text.EmptyInput | hetznerbot/helper/text.py:34-35 | No lines give the single chunk `""`. |
| Text.LongFirstLine | hetznerbot/helper/text.py:18-28 | A first line of 4094 characters or more makes the first chunk empty. |
| Text.SixBlocks | hetznerbot/helper/text.py:14-35 | Six blocks of 1000 characters make two chunks, of four and two blocks. |
| Disks.PopulateDiskData | hetznerbot/helper/hetzner.py:45-66 | The search loop with its early return computes `AddDisk`: `general` is skipped; a group of the same type and size counts one disk more; otherwise a group of one disk is appended. |
| Disks.BuildNewDisks | hetznerbot/helper/hetzner.py:86-95 | The nested loops over `serverDiskData` compute `NewDisks`: every entry outside `general`, in order. |
| Disks.AddDiskCounts | hetznerbot/helper/hetzner.py:54-66 | Adding an entry adds one disk to exactly its type and size, and one to the total. `general` adds nothing. |
| Disks.AddDiskKeepsGroups | hetznerbot/helper/hetzner.py:58-66 | Type and size stay unique and no group is empty. An existing group is incremented in place, otherwise exactly one group of one disk is appended. |
| Disks.AddSizesFacts | hetznerbot/helper/hetzner.py:88-95 | Adding the sizes of one category keeps groups unique and non-empty. It adds exactly that category's count of each size, and nothing for `general`. |
| Disks.NewDisksCoalesced | hetznerbot/helper/hetzner.py:86-95 | The built groups are unique per type and size and none is empty. Each counts exactly the upstream entries of its type and size, and the total is the number of entries outside `general`. |
| Disks.MaxPool | hetznerbot/helper/hetzner.py:322-340 | The largest pool of the level (`size*(amount-1)` for amount ≥ 3, `size*(amount-2)` for amount ≥ 4) over groups of any type. It is `None` iff no group qualifies; otherwise it is attained by a qualifying group and bounds every qualifying group's pool. |
| Disks.BiggestIsMaxPool | hetznerbot/helper/hetzner.py:332-340 | One step of the running maximum, including its `not biggest` test, extends the maximum to one more group. |
| Disks.BiggestPools | hetznerbot/helper/hetzner.py:322-340 | The loop over the disk groups returns the largest RAID5 and RAID6 pools. |
| Disks.PoolExamples | hetznerbot/helper/hetzner.py:332-340 | 3×4000 GB give 8000 GB as RAID5 and no RAID6 pool. 5×2000 GB give 6000 GB as RAID6. |
| Disks.FormatSizeReadsBack | hetznerbot/helper/hetzner.py:399-403 | A size is shown in GB exactly when it is below 1000, and the GB text reads back as the size. |
| Disks.DiskTypeNamesDistinct | hetznerbot/helper/hetzner.py:390-396 | The three disk types have three different names. |
| Reconcile.StoredFields | hetznerbot/helper/hetzner.py:82-141 | The stored offer carries the stripped CPU, RAM and datacenter. Its price is the upstream price ×100, plus 170 exactly when `"IPv4"` is a special. The ipv4, inic and hwr flags are membership tests on the specials, ecc is copied, and the offer is active. No other offer changes. |
| Reconcile.PriceChangeReset | hetznerbot/helper/hetzner.py:131-139 | When a stored offer's price changes, every relation of that offer, and only those, becomes not notified and not new, and the offer is stamped with `now`. An unchanged price leaves relations and time as they were. A new offer leaves the relations as they were. |
| Reconcile.DiskRewrite | hetznerbot/helper/hetzner.py:97-117 | The stored disks have the set of the freshly built groups. They are the old groups when the sets agree, and the new groups otherwise. |
| Reconcile.RefreshedFixes | hetznerbot/helper/hetzner.py:97-139 | Writing a record over the offer it already settled into changes nothing, at any time, and is not a price change. |
| Reconcile.RefreshedSettles | hetznerbot/helper/hetzner.py:74-142 | Whatever was stored under the key before, the written offer is settled with respect to the record. |
| Reconcile.LastOccurrenceWins | hetznerbot/helper/hetzner.py:74-142 | In a loop that runs to the end, the last record with a key decides the offer stored under it. A batch that repeats a key runs to the end when no repeat meets disk groups built earlier in the batch (see `Reconcile.Raises`). |
| Reconcile.BuiltDisksInBatch | hetznerbot/helper/hetzner.py:113-117 | Only offers the batch names can hold disk groups the batch built. |
| Reconcile.DistinctKeysNeverRaise | hetznerbot/helper/hetzner.py:74-100 | A batch without repeated keys never raises. |
| Reconcile.RaisesPrefix | hetznerbot/helper/hetzner.py:74-100 | Once the records so far raise, the whole call raises, whatever follows. |
| Reconcile.NewOfferRepeatedRaises | hetznerbot/helper/hetzner.py:76-117 | A new offer with disks, named twice in one batch, makes the call raise. The first record builds its disk groups, whose type is the category string, and the second fails taking that type's `name` for the old disk set. |
| Reconcile.RepeatWithoutRewriteCompletes | hetznerbot/helper/hetzner.py:97-117 | A key named twice does not raise when the stored offer already has the disk set both records bring. The second record then decides the offer. |
| Reconcile.ReconcileAllIds | hetznerbot/helper/hetzner.py:74-80 | The upsert files every offer under its own id throughout the loop. |
| Reconcile.ReconcileAllUntouched | hetznerbot/helper/hetzner.py:74-142 | During the loop, offers the batch does not name keep every field, and their relations keep their flags. |
| Reconcile.UpdateOffersFacts | hetznerbot/helper/hetzner.py:71-154 | No offer is removed, and every batch key is stored and active. Every other offer is deactivated and otherwise unchanged. Relations of offers outside the batch keep their flags. The returned offers follow the batch, one per record. |
| Reconcile.DeactivatedFacts | hetznerbot/helper/hetzner.py:144-150 | The bulk update keeps every offer and deactivates exactly those outside the batch keys. |
| Reconcile.UpdateOffersIdempotent | hetznerbot/helper/hetzner.py:97-150 | A second `update_offers` with the same batch of distinct keys, at any later time, leaves the store and the returned list exactly as the first pass did. No disk is rewritten and no flag is reset. |
| Reconcile.FirstPassSettles | hetznerbot/helper/hetzner.py:74-142 | After one pass over a batch of distinct keys, every record is settled in the store. |
| Reconcile.SettledFoldIsIdentity | hetznerbot/helper/hetzner.py:97-142 | Folding in records that are all settled leaves offers and relations exactly as they were. |
| Reconcile.ReDeactivating | hetznerbot/helper/hetzner.py:144-150 | After `update_offers`, the bulk deactivation with the same keys changes nothing. |
| Reconcile.DeactivatedTwice | hetznerbot/helper/hetzner.py:144-150 | Deactivating with the same keys twice is deactivating once. |
| Matching.DeactivatedNeverMatches | hetznerbot/helper/hetzner.py:179 | A deactivated offer never matches. |
| Matching.PriceCeiling | hetznerbot/helper/hetzner.py:180 | An offer priced above `price*100` never matches. |
| Matching.RamThreshold | hetznerbot/helper/hetzner.py:181 | A matching offer keeps matching exactly when its RAM stays at least the subscriber's. |
| Matching.UnknownCpuNeverMatches | hetznerbot/helper/hetzner.py:191-199 | The CPU gate fails closed: an offer whose CPU has no reference row never matches. |
| Matching.RaidMetByAnotherGroup | hetznerbot/helper/hetzner.py:182-211 | The hdd filter and the RAID filter can be met by two different hdd groups, neither of which meets both. |
| Matching.RaidWithoutMinimumCount | hetznerbot/helper/hetzner.py:202-220 | The RAID filter has no minimum disk count: two disks pass a RAID5 filter although the formatter shows no RAID5 pool. |
| Matching.FormatterPoolMeetsRaidFilter | hetznerbot/helper/hetzner.py:202-220 | A pool the formatter reports on an hdd group that reaches `after_raid` meets the RAID filter. |
| Matching.TighterPriceDropsOffer | hetznerbot/helper/hetzner.py:180 | Lowering the price ceiling below a matching offer's price removes it from the matches. |
| Matching.SyncedCorrespondence | hetznerbot/helper/hetzner.py:238-257 | After the bookkeeping, the subscriber's relations are exactly to the matching offers. Kept relations keep their flags, and created ones are not notified and new. Other subscribers' relations are untouched. |
| Matching.KeptUnique | hetznerbot/models/offer_subscriber.py:21-23 | Deleting relations keeps one relation per (offer, subscriber) pair. |
| Matching.KeptOthers | hetznerbot/helper/hetzner.py:253-255 | The clean-up of one subscriber's relations leaves every other subscriber's relations exactly as they were. |
| Matching.UniqueAppend | hetznerbot/models/offer_subscriber.py:21-23 | Adding a relation for a new pair keeps the pairs unique. |
| Matching.KeptRelated | hetznerbot/helper/hetzner.py:253-255 | The clean-up loop never deletes a relation to a matching offer. |
| Matching.AddMissingFacts | hetznerbot/helper/hetzner.py:237-250 | The first loop of the sync only appends. Each appended relation is the subscriber's, to an offer in the query result it had no relation to, not notified and new. Afterwards every offer of the result has a relation. |
| Matching.SyncIsSynced | hetznerbot/helper/hetzner.py:237-257 | When the query's rows include every matching offer, `Sync` (add the missing relations in row order, then delete the stale ones) gives relations `Synced` with the matches. |
| Matching.SyncStepFacts | hetznerbot/helper/hetzner.py:171-172 | Syncing one subscriber makes its relations synced with its matches against those before. Every other chat id's relations stay exactly as they were. |
| Matching.SyncAllStepChecked | hetznerbot/helper/hetzner.py:171-172 | Syncing one more subscriber with a chat id of its own keeps every subscriber checked before synced against the relations before the pass. |
| Matching.SyncAllStepOthers | hetznerbot/helper/hetzner.py:171-172 | Syncing one more subscriber leaves alone the relations of every chat id that no checked subscriber has. |
| Matching.SyncAllFacts | hetznerbot/helper/hetzner.py:162-172 | After `SyncAll`, each authorized and active subscriber is synced against the relations before the pass. Its relations are one-to-one with its matching offers. A relation it had to such an offer is still there with both flags, and any other is new and not notified. The relations of every chat id without a checked subscriber are exactly as they were. |
| Formatting.Selected | hetznerbot/helper/hetzner.py:290-292 | A relation is selected iff it is the subscriber's and, unless `get_all`, not yet notified. |
| Formatting.MarkedRelations | hetznerbot/helper/hetzner.py:298-300 | Each selected relation becomes notified and keeps its `new` flag. Every other relation is unchanged, and afterwards all of the subscriber's relations are notified. |
| Formatting.OutputIffSelection | hetznerbot/helper/hetzner.py:294-385 | There is output iff some relation is selected, and then at most five messages. |
| Formatting.SecondCallSendsNothing | hetznerbot/helper/hetzner.py:290-300 | After any call, a call without `get_all` finds nothing to send. |
| Formatting.StatusTagIffNew | hetznerbot/helper/hetzner.py:303-307 | The tag is "(New)" exactly for a relation marked new, "(Price reduction)" otherwise. |
| Formatting.ExtraFeaturesNone | hetznerbot/helper/hetzner.py:310-320 | The features line is `None` exactly when the offer has none of the four features. |
| Formatting.RaidLineShowsLargestPool | hetznerbot/helper/hetzner.py:364-374 | A subscriber in a RAID mode sees that mode's line, showing the largest pool over all groups. It shows "n/a" when no group qualifies or the largest pool is 0. |
| Formatting.NoRaidModeNoRaidLine | hetznerbot/helper/hetzner.py:364-374 | A subscriber without a RAID mode sees no RAID line. |
| Commands.Get | hetznerbot/models/subscriber.py:16-28 | Every setting holds a value of its kind: a number, a flag, or an optional string. |
| Commands.FieldNamesExact | hetznerbot/commands.py:43-55 | The eleven names and the settings correspond one to one. |
| Commands.RaidGuardNeverFires | hetznerbot/commands.py:78-85 | The chained RAID/`hdd_count` guard is false for every value and count. |
| Commands.TokenCount | hetznerbot/commands.py:41-60 | The command is refused for its token count exactly when the text does not hold two spaces, and then nothing changes. |
| Commands.UnknownNameRejected | hetznerbot/commands.py:65-67 | An unknown name is refused and nothing changes. |
| Commands.RaidValues | hetznerbot/commands.py:70-89 | `raid` takes `raid5`, `raid6` or `None`, stored as no value, whatever `hdd_count` is. Anything else is refused with nothing changed. |
| Commands.DatacenterValues | hetznerbot/commands.py:91-101 | `datacenter` takes `NBG`, `FSN`, `HEL` or `None`, stored as no value. Anything else is refused with nothing changed. |
| Commands.IntegerFields | hetznerbot/commands.py:103-109 | A numeric setting stores exactly what `int()` parses, and is refused when `int()` fails. |
| Commands.BooleanFields | hetznerbot/commands.py:103-117 | `ecc`, `inic` and `hwr` take only the integers 0 and 1, stored as false and true. Any other value is refused. |
| Commands.FrameCondition | hetznerbot/commands.py:58-119 | A refused command leaves the subscriber unchanged. An accepted one sets the named setting to the reported value and nothing else. |
| Commands.AssignFrame | hetznerbot/commands.py:119 | `setattr` changes the named setting to the value and nothing else. |
| Sessions.Store.UpdateOffers | hetznerbot/helper/hetzner.py:69-154 | The call fails exactly when `Reconcile.Raises`, and then the store is as it was. Otherwise the loop and the bulk update leave exactly the store, and return exactly the list, of `Reconcile.UpdateOffers`. The schema's constraints are kept either way. |
| Sessions.Store.UpdateRecord | hetznerbot/helper/hetzner.py:74-142 | One iteration on a record whose offer holds no groups the batch built folds the record in. The set of offers with built groups follows the record's disk rewrite, and the batch so far still does not raise. |
| Sessions.Store.ReconcileRecord | hetznerbot/helper/hetzner.py:74-142 | One iteration writes exactly `Reconcile.ReconcileOne`. A new offer is appended as a new row, and a stored one leaves the rows as they were. It reports whether the disk groups were replaced by freshly built ones. |
| Sessions.Store.DeactivateMissing | hetznerbot/helper/hetzner.py:143-154 | Once every record is in, the bulk update and the returned list are exactly those of `Reconcile.UpdateOffers`, and the schema's constraints hold. |
| Sessions.Store.ResetRelationFlags | hetznerbot/helper/hetzner.py:135-137 | Every relation of the offer, and only those, becomes not notified and not new. |
| Sessions.Store.CheckOfferForSubscriber | hetznerbot/helper/hetzner.py:175-257 | The relations afterwards are exactly `Matching.Sync` of those before, and so `Synced` with the matching offers. Offers are unchanged, and the schema's constraints are kept. |
| Sessions.Store.AddMissingRelations | hetznerbot/helper/hetzner.py:237-250 | The loop leaves exactly `Matching.AddMissing`: in row order, each matching offer without a relation gets one fresh relation, appended after the existing ones. |
| Sessions.Store.AddRelation | hetznerbot/helper/hetzner.py:244-250 | A relation to an offer the subscriber is not yet related to is appended, not notified and new. The subscriber's related offers grow by exactly that offer. |
| Sessions.Store.DropStaleRelations | hetznerbot/helper/hetzner.py:252-257 | Exactly the subscriber's relations to non-matching offers are deleted, and the order is kept. |
| Sessions.Store.CheckOffersForSubscribers | hetznerbot/helper/hetzner.py:162-172 | The relations afterwards are exactly `Matching.SyncAll` of those before. Each authorized, active subscriber ends related to exactly its matching offers. Its relations to offers that still match keep both flags, and any other is new and not notified. Every other chat id, in `subs` or not, keeps its relations as they were. |
| Sessions.Store.FormatOffers | hetznerbot/helper/hetzner.py:286-387 | The chunks and the relations afterwards are exactly those of `Formatting.FormatOffers`. Offers are unchanged, and the schema's constraints are kept. |
| Sessions.Store.MarkAndRenderAll | hetznerbot/helper/hetzner.py:297-383 | The loop marks exactly the selected relations notified and renders each, in order. |
| Sessions.Store.MarkAndRender | hetznerbot/helper/hetzner.py:298-300 | A selected relation is marked notified and rendered. Any other relation is left alone and adds no text. |
| Sessions.Store.RenderBlock | hetznerbot/helper/hetzner.py:298-383 | The block built with the running-maximum pool loop is the block of `Formatting.BlockOf`. |
| Sessions.Store.SetParameter | hetznerbot/commands.py:36-125 | The reply and the subscriber are those of `Commands.SetParameter`. After a change, the relations are `Matching.Sync` of those before, with the subscriber's new matches. Otherwise they are unchanged. |
| Sessions.FormatLoopStep | hetznerbot/helper/hetzner.py:298-383 | One iteration of the format loop extends the marked prefix, the selection and the rendered texts by one relation. |
| Sessions.UpdateKeepsValid | hetznerbot/helper/hetzner.py:69-154 | `update_offers` keeps ids matched, relations pointing at stored offers, and pairs unique. |
| Sessions.SameEndsKeepRefs | hetznerbot/models/offer_subscriber.py:21-23 | Relations that keep their offer and subscriber keep pointing at stored offers when no offer is removed, and their pairs stay unique. |
| Sessions.FormatKeepsValid | hetznerbot/helper/hetzner.py:298-300 | Marking relations notified keeps the schema's constraints. |

## Left out

- Fetching and decoding the upstream JSON (`get_hetzner_offers`) is not
  modelled. The batch is an input sequence of records.
- The Telegram sends are not modelled: `send_offers`,
  `notify_about_new_cpu`, and the chat replies of `/set`. The reply is
  returned as a value.
  - `send_offers` compares the list of chunks with the integer 5
    (hetzner.py:430), so its "Too many results" message is never sent. It
    lies outside the modelled core.
- Rendering a block as text is a parameter `render`. Everything a block
  shows is modelled as data: tag, time, CPU, RAM, disks, RAID line,
  features, price and datacenter. The text itself involves Python float
  formatting (the VAT price, the TB branch of `format_size`) and `strftime`.
  - Disks.FormatSize: from 1000 GB on, it returns the size in GB without
    rendering the decimal TB text.
- Prices are whole euros. An upstream price with cents would be a float in
  `price * 100`.
- `datetime.now()` is one timestamp `now` per batch, passed in.
- `int()` accepts non-ASCII Unicode digits. StringOps.ParseInt accepts only
  ASCII digits, with Python's whitespace, sign and underscore rules.
- The disk comparison in `update_offers` keys old groups by the disk type
  enum's name and new ones by the upstream category string. The model
  assumes the two agree, so the comparison is one of `(type, size, amount)`
  sets.
  - It is a set comparison, as written, not a multiset one.
- SQL `startswith` is modelled as a case-sensitive prefix test.
- The `offer_id` argument of `populate_disk_data` is not modelled. The disk
  list is local to one offer.
- Disks.PopulateDiskData and Disks.BuildNewDisks: the list the source
  updates in place is a value the method returns. The list is a fresh local
  one, so no aliasing is lost.
- The relation loop of `check_offer_for_subscriber` iterates the query
  result. The query's row order is modelled as the storage order of the
  offer table (`Store.rows`).
- A freshly created relation is taken to be new (`isNew` true). The
  relation class (models/offer_subscriber.py) has no `new` column, but the
  logic reads and writes one (hetzner.py:137, 304).
- The records follow the schema that `hetzner.py` reads, not the one the
  classes under `hetznerbot/models/` declare. Read literally against those
  classes, `check_offer_for_subscriber` would fail at hetzner.py:193 on every
  call, and `update_offers` at hetzner.py:101 on any non-empty batch. The
  differences:
  - `Cpu` is keyed by `cpu_name` (models/cpu.py:11), but the queries use
    `Cpu.name` (hetzner.py:193, 263). The model keys the CPU table by name.
  - `Subscriber` (models/subscriber.py:13-34) declares no `threads`,
    `release_date`, `multi_rating`, `single_rating` or `ipv4`. The query
    reads all five (hetzner.py:194-197, 225), and the model's subscriber
    has them.
  - `Offer` (models/offer.py:13-30) declares no `ipv4` column and no
    `offer_disks` relationship. The logic uses both (hetzner.py:101,
    111-117, 121, 183, 226, 326), and the model's offer has both.
  - `Offer` declares non-null `hdd_count` and `hdd_size` columns that
    `update_offers` never sets. The model's offer has neither, so the insert
    error they would cause is not modelled.
- Sessions.Store.FormatOffers: the source first filters the subscriber's
  relations into a list, then marks and renders that list. The model walks
  the relation table once and handles the selected relations in the same
  order. The result and the marked relations are the same.
- Cascading deletes, `created_at`/`updated_at`, and session, commit and
  Sentry plumbing are not modelled.
- Sessions.Store.UpdateOffers: a raising call is a `None` result with the
  store as it was, because the job wrapper commits nothing after an
  exception. The rest of the job after the raise is not modelled. Only the
  raise at hetzner.py:100 is modelled: a record meets disk groups that an
  earlier record of the same batch built, whose type is still the category
  string. An error from the database itself is not modelled.
- The authorization check of the session decorator is not modelled:
  `check_offers_for_subscribers` takes its subscribers as a sequence, and
  its query filter is the `authorized && active` test.
- Text.SplitText, where the code and its documentation disagree:
  - An overflow is silent. The line that closes the last chunk, and every
    line after it, are dropped without notice.
  - A first line of 4094 characters or more leaves an empty first chunk.
- Formatting.MarkedRelations: `format_offers` sets `notified` but never
  clears `new`. A relation stays "(New)" until a price change resets it.
