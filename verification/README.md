# botweet: a verified model of the polling core

botweet is a small Python layer over the tweepy client for writing Twitter
bots. A bot polls a feed (its mentions, a search, its direct messages) on a
timer. It keeps a high-water mark `since_id`, filters each item with an
optional regular expression, and reacts to matched items by retweeting or by
posting a reply built from a caller-supplied descriptor function. Each loop
runs in its own thread and is stopped through a `BotweetEvent` latch.

This project models the sequential decision logic of that core in Dafny.
Every remote call becomes an emitted action. Fetched batches are inputs. The
regular expression is an abstract predicate.

- `wrappers.dfy` (`Wrappers`): `Option` and `Result`.
- `event.dfy` (`BotweetEvent`): the two-state latch behind `BotweetEvent.stop`
  and `stopped`, and traces of stop and read operations over it.
- `tweet.dfy` (`Tweeting`): `_tweet` and `_upload_medias`. The descriptor's
  dictionary is a `map<string, Value>`. Uploads are `MediaUpload` actions and
  the post is an `UpdateStatus` action. The descriptor and the media id the
  service assigns are the `Env` parameter.
- `poll.dfy` (`Polling`): `_get_last_id_and_match` and one iteration of the
  mention, search and message loops. `Fold` is the abstract view: the final
  mark plus the list of reactions. `Iterate` follows the source's order: a
  reaction runs right after its item is read, and a reaction that raises ends
  the iteration. `IterateIsFoldThenExecute` proves the two views agree.
- `bot.dfy` (`Bot`): whether a client is configured, the `api` guard,
  `stop_event`, and one tick of `tweet_per_time`.

The model follows the code in these points, which may surprise a reader:

- Items are processed in the order the feed returns them, not sorted by id.
  The final mark is the maximum either way (`IsHighWater` does not depend on
  order).
- The message loop does not drop messages sent by the bot itself.
- The message loop's reaction is a status post through `_tweet`, with no
  reply target. It is not a direct message, so there is no one-media limit
  and no recipient check.
- The search loop never passes `since_id` to the search (see Findings). So
  searches can be reprocessed, and no "no reprocessing" claim is made for them.
- `BotweetEvent.stop` only sets the flag. It does not join the thread.
- There is no user-timeline loop.
- The loops call `self._api` directly, not the guarded `api` property.

## Model

| member | source | states |
|---|---|---|
| Polling.LastIdAndMatch | botweet/bot.py:95-101 | the new mark is the maximum of the old mark and the item id, so it never decreases; with no pattern the item matches, and with a pattern it matches exactly when the search succeeds |
| Polling.MatchedIsFilter | botweet/bot.py:114-115 | the reference filter `Matched` keeps an item exactly when it is in the batch and its text matches |
| Polling.Fold | botweet/bot.py:113-119 | after one pass the mark is the maximum of its start and every item id, matched or not; exactly one reaction per matched item, in batch order, none for unmatched items |
| Polling.InteractStep | botweet/bot.py:113-149 | a pass of the mentions body (lines 113-119) or of the search body (lines 143-149): the mark covers the whole batch; each matched item gets a retweet of its id when `retweet` is set and a reply to it otherwise, never both |
| Polling.NewerThanIsFilter | botweet/bot.py:132 | the message pre-filter `NewerThan` keeps exactly the inbox messages whose id is above the mark |
| Polling.MessageStep | botweet/bot.py:131-136 | a message pass reacts only to messages above the starting mark, in inbox order, one reply per matched message; the mark ends at the maximum over the whole inbox |
| Polling.HighWaterIgnoresOld | botweet/bot.py:132-134 | items at or below the mark do not move it, so the maximum over the filtered inbox is the maximum over the whole inbox |
| Polling.Perform | botweet/bot.py:115-119 | for a mention or search item (lines 115-119) and for a direct message (the `_tweet(..., msg=msg)` call at line 136): a retweet is a single `retweet` call that cannot fail; a reply never retweets and posts exactly one `update_status` carrying the dictionary composed from the descriptor's answer for that status or message; its calls are exactly the uploads of that dictionary's `medias` followed by that one `update_status`; a reply to a status names that status as its reply target; a reply raises exactly when composing its tweet raises, with the same error |
| Tweeting.PostTweet | botweet/bot.py:86-93 | `_tweet` raises exactly when composing the tweet raises, with the same error and no call at all; otherwise it makes exactly the uploads of the dictionary's `medias`, then exactly one `update_status` call carrying the composed dictionary, and never retweets |
| Polling.Execute | botweet/bot.py:113-119 | a run of reactions completes exactly when every reaction succeeds, making the calls of all of them in order; otherwise it stops at the first reaction that raises, ends with that reaction's error, and has made exactly the calls of the reactions before it |
| Polling.Iterate | botweet/bot.py:113-119 | the loop body as run, reacting right after each item: the mark never goes down, and when the iteration completes it is the maximum over the batch (its calls and error are those of `Execute` after `Fold`, by `IterateIsFoldThenExecute`) |
| Polling.ExecuteRetweets | botweet/bot.py:116-117 | retweet reactions always complete with one `retweet` call each, for the same id, in order |
| Polling.ExecuteRepliesNeverRetweet | botweet/bot.py:118-119 | a run of replies never makes a `retweet` call, whether or not it completes |
| Polling.ExecuteReplies | botweet/bot.py:118-119 | a completed run of replies makes one `update_status` per reaction, in order, each replying to its status |
| Polling.IterateIsFoldThenExecute | botweet/bot.py:113-119 | reacting while folding emits the same calls and ends with the same error as folding first and then reacting in order; when nothing raises, the final mark is the same too |
| Polling.InteractIteration | botweet/bot.py:113-119 | one mention or search iteration makes exactly the calls, and ends with exactly the exception, of running the pass's reactions in order, so it completes exactly when every reaction succeeds; in retweet mode, exactly one `retweet` per matched item, in order; in reply mode, no retweet and, on completion, one reply per matched item, each naming it; on completion the mark is the maximum over the batch |
| Polling.MessageIteration | botweet/bot.py:132-136 | one message iteration makes exactly the calls, and ends with exactly the exception, of running the message pass's reactions in order, so it completes exactly when every reply succeeds; it never retweets; on completion it posts once per matched new message and the mark is the maximum over the inbox |
| Polling.RetweetIteration | botweet/bot.py:113-117 | in retweet mode the loop body always completes, with one `retweet` per matched item, for its id, in batch order |
| Polling.ReplyIterationNeverRetweets | botweet/bot.py:113-119 | in reply mode the loop body never makes a `retweet` call, whether or not it completes |
| Polling.ReplyIteration | botweet/bot.py:113-119 | in reply mode a loop body that completes makes one `update_status` per matched item, in batch order, each naming that item as its reply target |
| Polling.NoMatchStillAdvances | botweet/bot.py:113-115 | a pattern that matches no item causes no call and no error, yet the mark still advances to the maximum id |
| Polling.MessagesNeverReprocessed | botweet/bot.py:132-134 | anything a later message iteration replies to has an id above every message of the earlier inbox |
| Polling.MessageReplayIsQuiet | botweet/bot.py:132 | handling the same inbox a second time replies to nothing |
| Polling.SearchRepeatsReactions | botweet/bot.py:142-144 | as written, a search returning the same result twice retweets it twice, because the mark is never used |
| Polling.SearchStepSinceId | botweet/bot.py:142-143 | the search pass with `since_id` fed back: it reacts only to results above the mark, one reaction per matched one, and the mark covers every result |
| Polling.SearchSinceIdNoRepeat | botweet/bot.py:142-144 | with `since_id` fed back, repeating a search reacts to nothing |
| Polling.MentionScenario | botweet/bot.py:113-119 | mark 100 and mentions 101, 102 and 103, two matching: two replies, to 101 and 103, and the mark ends at 103 |
| Tweeting.UploadAll | botweet/bot.py:72-84 | one upload per reference and one id per reference, both in input order |
| Tweeting.UploadMedias | botweet/bot.py:69-84 | a value with no `len()` raises `MediasWithoutLength` and more than 4 media raise `TooManyMedias`, both with nothing uploaded; at most 4 values that are not references raise `NotAMediaReference`; it succeeds exactly when there are at most 4 references, and then every reference is uploaded in order and exactly one id per reference comes back |
| Tweeting.ComposeTweet | botweet/bot.py:86-92 | with a status, `in_reply_to_status_id` is the status id and `auto_populate_reply_metadata` is true; `media_ids` is added only when `medias` is truthy, with one id per upload in order; every other key is passed through unchanged; the uploads are exactly those `_upload_medias` makes for the dictionary's `medias`; it fails exactly when the media upload fails, with the error `_upload_medias` raised |
| BotweetEvent.Fresh | botweet/event.py:4-5 | a new event is not stopped |
| BotweetEvent.Stop | botweet/event.py:7-8 | after `stop()` the event is stopped, and a stopped event is left as it was |
| BotweetEvent.StopIdempotent | botweet/event.py:7-8 | a second `stop()` changes nothing |
| BotweetEvent.TraceSetExactlyAfterStop | botweet/event.py:7-12 | at each point of a sequence of stops and reads, the event is set exactly when it started set or a stop has happened so far |
| BotweetEvent.TraceMonotone | botweet/event.py:7-12 | under the operations botweet performs (`stop()` and reading `stopped`), once set the event is set at every later point and never goes back to unset |
| BotweetEvent.ReadLeavesState | botweet/event.py:10-12 | reading `stopped` does not change the event |
| Bot.Access | botweet/bot.py:29-34 | a client is configured exactly when both access credentials are present and non-empty |
| Bot.Api | botweet/bot.py:40-44 | the `api` property fails with the "not yet configured" error exactly when no client is configured, and otherwise returns that client |
| Bot.ApiAfterAccess | botweet/bot.py:29-44 | after construction, the `api` guard passes exactly when both access credentials were given |
| Bot.StopEvent | botweet/bot.py:56-60 | afterwards the event is set; it warns exactly when the event was already set, and then leaves it unchanged |
| Bot.StopEventTwice | botweet/bot.py:56-60 | calling `stop_event` twice leaves the same event as calling it once; the second call only warns |
| Bot.TimedPostTick | botweet/bot.py:106-107 | a timed post never retweets; it makes exactly the uploads of the descriptor's `medias` and then one `update_status` call carrying the descriptor's dictionary as `_tweet` completes it; it adds no reply metadata and passes the descriptor's own reply keys through; it fails exactly when the media upload fails, with the upload's error |

## Left out

- Threads, `_start_event`, the `current_thread() is main_thread()` branch, `sleep` and the `while not stop_event.is_set()` loops. These are concurrency and timing, so one iteration is modelled.
- The tweepy calls (`Cursor`, `mentions_timeline`, `search`, `list_direct_messages`, `update_status`, `retweet`, `media_upload`) belong to a foreign network client. Fetched batches are inputs and calls are `Action`s. Remote failures are not modelled, so a retweet never fails.
- `urlopen`, `guess_extension`, `TemporaryFile`, `copyfileobj` and the `os.path.isfile` branch are file and network I/O. An upload is one `MediaUpload` action. The id it returns is `Env.mediaId` of the reference, so the same reference always gets the same id.
- Tweeting.UploadMedias: a non-empty list of integers as `medias` is treated as an error with no upload, because what the foreign upload does with an integer is not modelled.
- `int(msg.id)` and the nested `message_create` text lookup. Messages are given as items with an integer id and a text.
- The match object passed to the descriptor as `re_match`. The pattern is a predicate, so the descriptor's `Trigger` carries only the item.
- The descriptor's dictionary is treated as a fresh value per call. If a descriptor returns the same dictionary object every time, `_tweet` mutates it, and that aliasing is not modelled.
- `__init__`'s configuration lookup (dict, `ConfigParser`, `os.environ`), the missing-consumer-key `KeyError`, and the interactive OAuth flow of `set_access` (`print`, `input`). These are I/O and library wrappers.
- The `re` engine. A `Pattern` is an abstract predicate on text.
- `tweet_per_time` beyond one tick of its `_tweet` call.
- setup.py, which is packaging metadata only.
- The descriptor `get_tweet_func` is treated as a total function that always returns a dictionary. An exception raised inside it, or a result that is not a dictionary, would leave `_tweet` and end the iteration just like an upload error. This is not modelled, so `PostTweet` and `Perform` raise only through composing the tweet.
- `clear()`, `wait()` and the rest of the interface `BotweetEvent` inherits from `threading.Event`. botweet never calls `clear()`, and only because of that is the latch monotone. A holder of the event returned by `_start_event` could still unset it.

## Findings

| source | as written | input that shows it | evidently intended | confidence | as-written member | corrected member |
|---|---|---|---|---|---|---|
| botweet/bot.py:142-143 | the search loop updates `since_id` but never passes it to the search, and the `since_id` argument of `tweet_reply_searches` / `tweet_retweet_searches` has no effect | retweet mode, no pattern, mark 1, a search that returns the result with id 5 in two consecutive iterations: it is retweeted twice | put `since_id` into `search_parameters` so that results at or below the mark are not returned again | medium, not executed | Polling.SearchRepeatsReactions | Polling.SearchStepSinceId |

`InteractStep` and `InteractIteration` model the search loop as written.
`SearchStepSinceId` models a search that honours the mark; `SearchSinceIdNoRepeat` proves that a repeated search with it reacts to nothing.
