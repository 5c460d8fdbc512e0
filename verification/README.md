# AgriMonitorBot core, modelled in Dafny

AgriMonitorBot is a Telegram bot for rice-field monitoring. It keeps a list of
subscribed chats, answers free-text questions by keyword routing, broadcasts
alert templates to its subscribers, and runs uploaded images through a U-Net
weed detector that has a green-band fallback. This project models the
sequential logic inside that bot and proves properties of it:

- `subscribers.dfy`: the subscriber registry of `RiceFieldBot`. It is a class holding
  the list of chat ids, with `add_subscriber`, `remove_subscriber` and the
  status query. A ghost copy stands for the subscriber file.
- `text.dfy`: the string primitives routing relies on. These are `str.lower()`,
  substring `in` and `any(...)`.
- `router.dfy`: `find_response`. The reference definition is an explicit ordered
  rule table where the first firing rule wins. The source's if-chain and FAQ loop
  are a method proved equal to it. Lemmas state the rule priorities.
- `broadcast.dfy`: the counting loop of `send_alert` and the alert choice of
  `trigger_test_alert`.
- `channels.dfy`: `_adjust_channels`, the truncate-or-repeat loop on a pixel's
  channel vector.
- `detection.dfy`: the detection decision rules. These are coverage, the
  detected verdicts (1% learned, 2% fallback), the weed-type labels, min-max
  normalisation of the green band, and the provenance of the result. It also
  holds the `UNetWeedDetector` class with its `loaded` flag.
- `wrappers.dfy`: the Option and Result types.

Floating-point values are modelled as exact reals.

Two behaviours of the code are worth stating up front:

- The subscriber list is not a set. Loading does not deduplicate
  (main.py:30), and `remove_subscriber` deletes only the first copy
  (main.py:57, `RemoveLeavesLaterCopy`). At-most-once membership is therefore
  a precondition of the lemmas, not a theorem.
- A green band that is bright everywhere does not give 100% fallback coverage.
  The code min-max normalises the band first (models.py:150), so its darkest
  pixel becomes 0. As a result, no raw band reaches 100%
  (`FallbackNeverFullFromRawBand`), and a uniform band detects nothing
  (`FallbackUniformBandDetectsNothing`). The 100% case holds only for an
  already normalised band (`FallbackSaturated`).

## Model

| member | source | states |
|---|---|---|
| `Subscribers.SubscriberRegistry.constructor` | main.py:23-35 | the registry starts from the ids read from the file, duplicates included, and the file copy agrees with it |
| `Subscribers.SubscriberRegistry.SaveSubscribers` | main.py:37-44 | after saving, the file holds exactly the current list |
| `Subscribers.SubscriberRegistry.AddSubscriber` | main.py:46-52 | returns true exactly when the id was absent; then the id is appended and saved; otherwise the list and the file are unchanged |
| `Subscribers.SubscriberRegistry.RemoveSubscriber` | main.py:54-60 | returns true exactly when the id was present; then only its first occurrence is removed and saved; otherwise the list and the file are unchanged |
| `Subscribers.SubscriberRegistry.Status` | main.py:167-176 | reports whether the chat is in the list and the list's length |
| `Subscribers.FirstIndex` | main.py:57 | the position found holds the id and no earlier position does |
| `Subscribers.RemoveFirst` | main.py:57 | `list.remove`: the result is one shorter; its multiset loses one copy of the id; it equals the list with the first occurrence cut out, everything else in order |
| `Subscribers.AfterAdd` | main.py:48-49 | after an add the id is a member; the old list is kept as a prefix; the list gains one copy of the id exactly when it was absent, and nothing else |
| `Subscribers.AfterRemove` | main.py:56-57 | after a remove the list loses one copy of the id when present and is unchanged when absent |
| `Subscribers.RemoveFirstShifts` | main.py:57 | elements before the removed position keep their index; later elements move down by one |
| `Subscribers.AddMembership` | main.py:48-49 | after adding, the id is a member, membership otherwise unchanged, and the size grows by one exactly when the id was absent |
| `Subscribers.AddTwiceIsAddOnce` | main.py:48-49 | adding the same id twice leaves the list (and its size) as one add left it |
| `Subscribers.AddKeepsNoDuplicates` | main.py:48-49 | a duplicate-free list stays duplicate-free after an add |
| `Subscribers.RemoveKeepsNoDuplicates` | main.py:56-57 | on a duplicate-free list, removal keeps it duplicate-free and the members become exactly the old ones minus the id |
| `Subscribers.AddThenRemoveRestores` | main.py:46-60 | subscribing an absent id and then unsubscribing it gives back the original list |
| `Subscribers.RemoveLeavesLaterCopy` | main.py:54-60 | on a list holding an id at least twice (possible after loading), removal takes away one copy only, so the id stays a member |
| `Text.LowerChar` | main.py:64 | an ASCII capital becomes its small letter; every other character is unchanged; no capital remains |
| `Text.Lower` | main.py:64 | lower-casing keeps the length, maps each character and leaves no ASCII capital |
| `Text.LowerIdempotent` | main.py:64 | lower-casing twice equals lower-casing once |
| `Text.LowerFixesLowerCase` | main.py:64 | a string without capitals is its own lower-case form |
| `Text.ContainsAt` | main.py:87 | substring `in` holds exactly when the needle occurs at some offset |
| `Text.Contains` | main.py:67-88 | a contained needle is no longer than the text; the empty needle and the text itself are contained |
| `Text.AnyIn` | main.py:67-82 | `any` over no words is false, and over one word is that word's containment test |
| `Text.AnyInConcat` | main.py:67-82 | `any` over two word lists joined equals `any` over either list |
| `Text.ContainsTransitive` | main.py:67 | a substring of a substring is a substring |
| `Text.MissingCharBlocks` | main.py:79 | a needle using a character the message lacks is not contained in it |
| `Router.FaqRules` | config.py:7-23 | one rule per FAQ key, in table order, answering with that key's entry |
| `Router.FaqRuleFires` | main.py:86-88 | the FAQ rule for a key fires exactly when the key occurs in the message |
| `Router.RuleTable` | main.py:66-88 | the table holds one rule per keyword rule and one per FAQ key (six keyword rules first, then the FAQ rules) |
| `Router.FirstFiring` | main.py:66-91 | the index of the first rule that fires, or the table length; no earlier rule fires |
| `Router.Respond` | main.py:62-91 | the routing never answers with the FAQ entries for "health", "yield" or "ndvi" |
| `Router.ShadowedFaqRules` | main.py:73-88 | when the first firing rule is a FAQ rule, its key is not "health", "yield" or "ndvi", because an earlier keyword rule captures those words |
| `Router.SingleWordFires` | main.py:86-88 | a one-keyword rule fires exactly when its keyword occurs |
| `Router.FirstFiringIs` | main.py:66-91 | a rule that fires with no earlier rule firing is the one chosen |
| `Router.FindResponse` | main.py:62-91 | the if-chain and FAQ loop answer exactly as the first firing rule of the table on the lower-cased message, or with the welcome text |
| `Router.ExplicitRulesFire` | main.py:67-83 | each keyword rule fires exactly when the corresponding test of the if-chain holds |
| `Router.RespondIgnoresCase` | main.py:64 | routing a message and routing its lower-cased form give the same answer |
| `Router.WeedWordsMeanWeed` | main.py:67 | the test for "weed" or "weeds" is the same as the test for "weed" |
| `Router.WeedRulesComeFirst` | main.py:67-71 | any message containing "weed" gets the alert text exactly when "alert" or "detected" also occurs, else the FAQ weed entry; no other rule is consulted |
| `Router.DoOrNextGivesActions` | main.py:79-80 | a message that escapes the weed, health and yield rules and contains "do" or "next" anywhere gets the actions reply |
| `Router.WindowAndDoingGetActions` | main.py:79-80 | "window" and "Doing" both get the actions reply |
| `Router.NoFarmingWordsIn` | main.py:67-77 | neither "window" nor "doing" contains a weed, health or yield keyword |
| `Router.FaqFallbackFirstKey` | main.py:86-88 | with no keyword rule firing, the first FAQ key in table order that occurs wins, and it can only be irrigation, disease or weather |
| `Router.WelcomeIffNothingMatches` | main.py:85-91 | the default reply is given exactly when no keyword rule fires and no FAQ key occurs |
| `Broadcast.Delivered` | main.py:201-212 | the number of successful deliveries is at most the number of subscribers |
| `Broadcast.DeliveredSplits` | main.py:201-212 | counting over two consecutive parts of the list adds their counts |
| `Broadcast.AllAcceptedAllSent` | main.py:201-209 | if every send succeeds, all subscribers are counted as sent |
| `Broadcast.AllRefusedNoneSent` | main.py:201-212 | if every send fails, nothing is counted as sent |
| `Broadcast.SendAlert` | main.py:196-214 | sent counts the successful deliveries and sent + failed equals the number of subscribers; an empty list gives 0 and 0 |
| `Broadcast.AlertNamed` | main.py:220-221 | a found template is stored under exactly that key; a missing key matches no template |
| `Broadcast.AlertNameRoundTrip` | config.py:26-114 | every alert template is found under its own key |
| `Broadcast.SelectAlert` | main.py:218-233 | no argument selects the weed alert; otherwise the template whose key equals the lower-cased first argument, or none |
| `Broadcast.SelectIgnoresCase` | main.py:219-221 | any capitalisation of a key selects that key's template |
| `Broadcast.TriggerTestAlert` | main.py:216-237 | an unknown key sends nothing and lists the four keys in table order; otherwise the selected template is broadcast and the reply reports the subscriber count, which equals sent + failed |
| `Channels.ExtendCycle` | models.py:131-132 | appending one more whole copy keeps every position mapped to its cyclic channel |
| `Channels.AdjustChannels` | models.py:122-133 | with at least one channel, the result has exactly the target width; channel i is input channel i mod c; with c at least the target, the result is the first target channels |
| `Channels.Passes` | models.py:130-132 | the loop's working vector after n passes, as written: at least as wide as the input, which stays its leading part |
| `Channels.PassesWidth` | models.py:131-132 | as written, after n passes of the repeat loop the working vector is n + 1 copies wide |
| `Channels.EmptyVectorNeverReachesTarget` | models.py:124-132 | as written, an empty channel vector stays empty on every pass, so for a positive target the loop guard never fails |
| `Channels.AdjustChannelsChecked` | models.py:122-133 | an empty vector with a positive target is an error; every other input gives exactly the target width, channel i being input channel i mod c, and the first target channels when there are enough |
| `Detection.CountAbove` | models.py:107 | the number of entries above the threshold is at most the mask size |
| `Detection.CountAboveAll` | models.py:153-155 | when every entry is above the threshold, all are counted |
| `Detection.CountAboveNone` | models.py:153-155 | when no entry is above the threshold, none is counted |
| `Detection.CountAboveMissesOne` | models.py:153-155 | one entry at or below the threshold keeps the count below the size |
| `Detection.CoveragePercent` | models.py:107 | coverage is count over size times 100 and lies in [0, 100] |
| `Detection.CoverageAbove` | models.py:110 | coverage exceeds p per cent exactly when 100 times the count exceeds p times the size |
| `Detection.MaxOf` | models.py:106 | the confidence peak is an entry of the mask and bounds every entry |
| `Detection.MinOf` | models.py:150 | the band minimum is an entry of the band and is at most every entry |
| `Detection.Sum` | models.py:137 | a mask without negative entries has a non-negative sum; an all-zero mask sums to 0 |
| `Detection.SumAtLeastEntry` | models.py:137 | a mask without negative entries sums to at least each entry |
| `Detection.LearnedDetection` | models.py:105-116 | an empty mask raises; otherwise the result is marked as from the learned model |
| `Detection.LearnedVerdict` | models.py:106-112 | the learned path reports detected exactly when over 1% of pixels exceed 0.5; coverage lies in [0, 100]; confidence is the peak in per cent |
| `Detection.LearnedLabelsFollowConfidence` | models.py:135-139 | on a probability mask, the two fixed weed labels appear exactly when the peak exceeds 0.7, else none |
| `Detection.ClassifyWeedType` | models.py:135-139 | the labels are none or the two fixed weed names; they are given exactly when the confidence exceeds 0.7 and the mask sum is positive |
| `Detection.FallbackDetection` | models.py:141-164 | an empty band raises; otherwise the result is marked as the fallback |
| `Detection.FallbackVerdict` | models.py:153-162 | the fallback reports detected exactly when over 2% of pixels exceed 0.6, names a weed type exactly when detected, and its coverage lies in [0, 100] |
| `Detection.FallbackSaturated` | models.py:153-158 | a normalised band entirely above 0.6 gives detected with 100% coverage |
| `Detection.FallbackNothingAbove` | models.py:153-162 | a normalised band nowhere above 0.6 gives no detection, 0% coverage and no type |
| `Detection.Scale` | models.py:150 | a value between the minimum and the minimum plus the span scales into [0, 1), and the minimum scales to 0 |
| `Detection.Normalise` | models.py:150 | the normalised band keeps its length, lies in [0, 1), and the darkest pixels become 0 |
| `Detection.FallbackNeverFullFromRawBand` | models.py:150-158 | on any non-empty raw band the fallback coverage stays below 100% |
| `Detection.FallbackUniformBandDetectsNothing` | models.py:150-158 | a uniform green band normalises to zeros and detects nothing, with 0% coverage |
| `Detection.UNetWeedDetector.constructor` | models.py:19-35 | the detector is loaded exactly when its weights could be read |
| `Detection.UNetWeedDetector.LoadModel` | models.py:37-62 | `loaded` becomes whether reading the weights succeeded |
| `Detection.UNetWeedDetector.Predict` | models.py:68-120 | without weights the fallback result is returned; with weights and a non-empty network mask the learned result is returned; an inference error or empty mask falls back; the result says "Actual" exactly on the learned path |

## Left out

- Telegram transport: the command handlers' replies, `Application` setup, polling and the error handler (main.py:96-267). This is foreign-library I/O; only the counting and selection logic is kept, with delivery as an oracle.
- Subscriber file parsing and writing (main.py:26-44): the file is represented by the ghost field `saved`, and the loaded ids are a constructor parameter.
- `Subscribers.SubscriberRegistry.constructor`: the ghost file copy starts equal to the loaded list. When a line of the file is malformed, `load_subscribers` returns `[]` (main.py:33-35) while the file keeps its lines, so the file and the list disagree until the next save; that save then drops every subscriber the file held. The model does not represent this disagreement.
- `Subscribers.SubscriberRegistry.SaveSubscribers`: a failed write is not represented. The source logs the error and carries on (main.py:43-44), and since opening with `'w'` truncates first, the file can then hold a prefix of the list or nothing; the model takes every save to succeed.
- The race between concurrent subscribe and unsubscribe requests. The model is sequential, like the single-process bot.
- `Text.Lower`: lower-cases ASCII letters only, because Unicode case mapping is not modelled; see the `Text.LowerChar` line.
- `Text.LowerChar`: lowers ASCII capitals only. Python also folds some non-ASCII letters to ASCII ones (the Kelvin sign U+212A becomes `k`), so "np" followed by that sign gets the fertilizer FAQ entry in the source but the welcome text in the model.
- `Broadcast.SendAlert`: the delivery oracle gives one outcome per chat id within a broadcast, because per-attempt transport failures are not modelled.
- `Broadcast.TriggerTestAlert`: the alert text and the reply wording are represented by tags and counts.
- The `UNet` network, weight loading and torch tensor handling (models.py:37-66, 84-103, 167-240): the network's mask is an input, and `None` means inference raised.
- The grayscale branch of `predict` (models.py:87-89), and the reading of channel 1 as the green band (models.py:144-147), because both depend on tensor and array shapes. The green band is an input.
- `Channels.AdjustChannels`: works on one pixel's channel vector; concatenation along the channel axis treats every pixel alike. With zero channels and a positive target the source loops forever (see Findings), so this method excludes that input and `AdjustChannelsChecked` reports it as an error.
- The rounding of confidence and coverage (models.py:111-112, 158-159) and float rounding in normalisation: values are exact reals, and the result fields are unrounded.
- The `segmentation_mask` result field, which is the mask itself.
- Global singletons `rice_bot` and `weed_detector` (main.py:94, models.py:243-257).
- The reply texts and settings in config.py: only the FAQ key order and the alert key order are modelled. `max_subscribers` is never enforced by the code, so it is not modelled.
- Vegetation indices and the health score: they are not computed in main.py or models.py.

## Findings

| source | as written | input that shows it | evidently intended | confidence | as-written member | corrected member |
|---|---|---|---|---|---|---|
| models.py:124-132 | the repeat loop concatenates the tensor to itself until it is at least `target_channels` wide | a 3-D tensor with 0 channels and the default target 5: the width stays 0, so `while` never exits | reject or report a tensor without channels instead of looping | low: a decoded image always has at least one channel; not executed | `Channels.EmptyVectorNeverReachesTarget` | `Channels.AdjustChannelsChecked` |
