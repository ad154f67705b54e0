/**
 * One iteration of the polling loops in botweet/bot.py, over a batch the
 * client has already fetched: `_tweet_interact_mentions` and
 * `_tweet_interact_searches` (the same loop body over different feeds) and
 * `tweet_reply_messages`.
 *
 * Two views of the same loop body are given. `Fold` threads the high-water
 * mark `since_id` and lists the reactions the matched items call for.
 * `Iterate` follows the source step by step: each reaction is carried out as
 * soon as its item has been looked at, and a reaction that raises ends the
 * iteration (and with it the loop's thread). `IterateIsFoldThenExecute`
 * shows the two agree.
 */
module Polling {
  import opened Wrappers
  import opened Tweeting

  /** A compiled regular expression, seen only through `search`. */
  datatype Pattern = Pattern(search: string -> bool)

  /** Whether `regex.search(text)` finds a match. */
  predicate Search(p: Pattern, text: string)
  {
    p.search(text)
  }

  /** The match verdict: no pattern matches everything. */
  predicate Matches(regex: Option<Pattern>, text: string)
  {
    regex.None? || Search(regex.value, text)
  }

  /**
   * `_get_last_id_and_match`: the larger of the mark and the item id, and
   * whether the item's text matches.
   */
  function LastIdAndMatch(tweetId: int, text: string, lastId: int, regex: Option<Pattern>): (r: (int, bool))
    ensures r.0 >= lastId && r.0 >= tweetId
    ensures r.0 == lastId || r.0 == tweetId
    ensures regex.None? ==> r.1
    ensures regex.Some? ==> (r.1 <==> Search(regex.value, text))
  {
    var last := if tweetId > lastId then tweetId else lastId;
    var matched := if regex.Some? then Search(regex.value, text) else true;
    (last, matched)
  }

  /** `h` is the maximum of `start` and every id in `batch`. */
  ghost predicate IsHighWater(h: int, start: int, batch: seq<FeedItem>)
  {
    && start <= h
    && (forall i :: 0 <= i < |batch| ==> batch[i].id <= h)
    && (h == start || exists i :: 0 <= i < |batch| && batch[i].id == h)
  }

  /** Reference definition: the items of `batch` whose text matches, in batch order. */
  function Matched(batch: seq<FeedItem>, regex: Option<Pattern>): (m: seq<FeedItem>)
    decreases |batch|
  {
    if batch == [] then []
    else if Matches(regex, batch[0].text) then [batch[0]] + Matched(batch[1..], regex)
    else Matched(batch[1..], regex)
  }

  /** The message pre-filter: the items whose id is above the mark, in inbox order. */
  function NewerThan(inbox: seq<FeedItem>, sinceId: int): (r: seq<FeedItem>)
    decreases |inbox|
  {
    if inbox == [] then []
    else if inbox[0].id > sinceId then [inbox[0]] + NewerThan(inbox[1..], sinceId)
    else NewerThan(inbox[1..], sinceId)
  }

  /** `Matched` keeps exactly the items of the batch whose text matches. */
  lemma {:induction false} MatchedIsFilter(batch: seq<FeedItem>, regex: Option<Pattern>)
    ensures |Matched(batch, regex)| <= |batch|
    ensures forall e :: e in Matched(batch, regex) <==> e in batch && Matches(regex, e.text)
    decreases |batch|
  {
    if batch != [] {
      MatchedIsFilter(batch[1..], regex);
      assert batch == [batch[0]] + batch[1..];
    }
  }

  /** `NewerThan` keeps exactly the messages above the mark. */
  lemma {:induction false} NewerThanIsFilter(inbox: seq<FeedItem>, sinceId: int)
    ensures |NewerThan(inbox, sinceId)| <= |inbox|
    ensures forall e :: e in NewerThan(inbox, sinceId) <==> e in inbox && e.id > sinceId
    decreases |inbox|
  {
    if inbox != [] {
      NewerThanIsFilter(inbox[1..], sinceId);
      assert inbox == [inbox[0]] + inbox[1..];
    }
  }

  /** How a loop reacts to a matched item. */
  datatype Mode = RetweetMode | ReplyMode | MessageReplyMode

  /** The `retweet` flag of the mention and search loops. */
  function InteractMode(retweet: bool): Mode
  {
    if retweet then RetweetMode else ReplyMode
  }

  /** A reaction to one matched item. */
  datatype Reaction =
    | Retweet(id: int)
    | ReplyToStatus(status: FeedItem)
    | ReplyToMessage(msg: FeedItem)

  function ReactTo(e: FeedItem, mode: Mode): Reaction
  {
    match mode
    case RetweetMode => Retweet(e.id)
    case ReplyMode => ReplyToStatus(e)
    case MessageReplyMode => ReplyToMessage(e)
  }

  /** The mark after an iteration and the reactions it called for, in order. */
  datatype Step = Step(sinceId: int, reactions: seq<Reaction>)

  /**
   * The `for` loop of an iteration, as a fold: the mark ends at the maximum
   * of its start and every id of the batch, matched or not, and exactly the
   * matched items get a reaction, in batch order.
   */
  function Fold(batch: seq<FeedItem>, regex: Option<Pattern>, sinceId: int, mode: Mode): (r: Step)
    ensures IsHighWater(r.sinceId, sinceId, batch)
    ensures |r.reactions| == |Matched(batch, regex)|
    ensures forall i :: 0 <= i < |r.reactions| ==>
              r.reactions[i] == ReactTo(Matched(batch, regex)[i], mode)
    decreases |batch|
  {
    if batch == [] then Step(sinceId, [])
    else
      var (last, matched) := LastIdAndMatch(batch[0].id, batch[0].text, sinceId, regex);
      var rest := Fold(batch[1..], regex, last, mode);
      HighWaterStep(rest.sinceId, sinceId, last, batch);
      if matched then
        var m := Matched(batch, regex);
        var rs := [ReactTo(batch[0], mode)] + rest.reactions;
        assert m == [batch[0]] + Matched(batch[1..], regex);
        assert forall i :: 1 <= i < |rs| ==> rs[i] == rest.reactions[i - 1] && m[i] == Matched(batch[1..], regex)[i - 1];
        Step(rest.sinceId, rs)
      else
        assert Matched(batch, regex) == Matched(batch[1..], regex);
        Step(rest.sinceId, rest.reactions)
  }

  /** One item's step of the fold keeps the high-water mark over the items seen so far. */
  lemma HighWaterStep(h: int, start: int, last: int, batch: seq<FeedItem>)
    requires batch != []
    requires last >= start && last >= batch[0].id && (last == start || last == batch[0].id)
    requires IsHighWater(h, last, batch[1..])
    ensures IsHighWater(h, start, batch)
  {
  }

  /**
   * One iteration of `_tweet_interact_mentions` or `_tweet_interact_searches`
   * as a fold: the mark covers the whole batch, and each matched item gets
   * exactly one reaction, a retweet when `retweet` is set and a reply otherwise.
   */
  function InteractStep(batch: seq<FeedItem>, retweet: bool, regex: Option<Pattern>, sinceId: int): (r: Step)
    ensures IsHighWater(r.sinceId, sinceId, batch)
    ensures |r.reactions| == |Matched(batch, regex)|
    ensures forall i :: 0 <= i < |r.reactions| ==>
              if retweet then r.reactions[i] == Retweet(Matched(batch, regex)[i].id)
              else r.reactions[i] == ReplyToStatus(Matched(batch, regex)[i])
  {
    Fold(batch, regex, sinceId, InteractMode(retweet))
  }

  /** Ids at or below the mark do not move it. */
  lemma HighWaterIgnoresOld(h: int, start: int, inbox: seq<FeedItem>)
    requires IsHighWater(h, start, NewerThan(inbox, start))
    ensures IsHighWater(h, start, inbox)
  {
    var newer := NewerThan(inbox, start);
    NewerThanIsFilter(inbox, start);
    forall i | 0 <= i < |inbox|
      ensures inbox[i].id <= h
    {
      if inbox[i].id > start {
        assert inbox[i] in newer;
        var j :| 0 <= j < |newer| && newer[j] == inbox[i];
      }
    }
    if h != start {
      var j :| 0 <= j < |newer| && newer[j].id == h;
      assert newer[j] in inbox;
      var i :| 0 <= i < |inbox| && inbox[i] == newer[j];
    }
  }

  /**
   * One iteration of `tweet_reply_messages` as a fold: only messages above the
   * mark at the start are looked at, in inbox order; the mark still ends at
   * the maximum over the whole inbox; each matched new message gets one reply.
   */
  function MessageStep(inbox: seq<FeedItem>, regex: Option<Pattern>, sinceId: int): (r: Step)
    ensures IsHighWater(r.sinceId, sinceId, inbox)
    ensures |r.reactions| == |Matched(NewerThan(inbox, sinceId), regex)|
    ensures forall i :: 0 <= i < |r.reactions| ==>
              r.reactions[i] == ReplyToMessage(Matched(NewerThan(inbox, sinceId), regex)[i])
    ensures forall i :: 0 <= i < |r.reactions| ==> r.reactions[i].msg.id > sinceId
  {
    var r := Fold(NewerThan(inbox, sinceId), regex, sinceId, MessageReplyMode);
    HighWaterIgnoresOld(r.sinceId, sinceId, inbox);
    NewerThanIsFilter(inbox, sinceId);
    MatchedIsFilter(NewerThan(inbox, sinceId), regex);
    assert forall i :: 0 <= i < |r.reactions| ==>
             Matched(NewerThan(inbox, sinceId), regex)[i] in NewerThan(inbox, sinceId);
    r
  }

  /**
   * Carrying out one reaction: a retweet is a single `retweet` call; a reply
   * is a `_tweet` call, which replies to the status for a mention or search
   * result and posts a plain status for a direct message. A reply makes one
   * `update_status` call and never retweets.
   */
  function Perform(r: Reaction, env: Env): (res: Result<seq<Action>, Error>)
    ensures r.Retweet? ==> res == Success([RetweetCall(r.id)])
    ensures !r.Retweet? && res.Success? ==> forall a :: a in res.value ==> !a.RetweetCall?
    ensures r.ReplyToStatus? ==>
              var c := ComposeTweet(env.describe(OnStatus(r.status)), Some(r.status), env.mediaId);
              && (res.Failure? <==> c.Failure?)
              && (res.Failure? ==> res.error == c.error)
              && (res.Success? ==> Updates(res.value) == [c.value.params])
              && (res.Success? ==> res.value == c.value.uploads + [UpdateStatus(c.value.params)])
    ensures r.ReplyToStatus? && res.Success? ==>
              && |Updates(res.value)| == 1
              && InReplyToKey in Updates(res.value)[0]
              && Updates(res.value)[0][InReplyToKey] == IntValue(r.status.id)
    ensures r.ReplyToMessage? ==>
              var c := ComposeTweet(env.describe(OnMessage(r.msg)), None, env.mediaId);
              && (res.Failure? <==> c.Failure?)
              && (res.Failure? ==> res.error == c.error)
              && (res.Success? ==> Updates(res.value) == [c.value.params])
              && (res.Success? ==> res.value == c.value.uploads + [UpdateStatus(c.value.params)])
  {
    match r
    case Retweet(id) => Success([RetweetCall(id)])
    case ReplyToStatus(s) => PostTweet(env.describe(OnStatus(s)), Some(s), env.mediaId)
    case ReplyToMessage(m) => PostTweet(env.describe(OnMessage(m)), None, env.mediaId)
  }

  /** The calls made by a run of reactions, and the exception that cut it short, if any. */
  datatype Run = Run(actions: seq<Action>, failure: Option<Error>)

  /** Reference definition: the calls of every reaction that succeeds, concatenated in order. */
  function Calls(reactions: seq<Reaction>, env: Env): seq<Action>
    decreases |reactions|
  {
    if reactions == [] then []
    else
      (match Perform(reactions[0], env) case Success(acts) => acts case Failure(_) => [])
      + Calls(reactions[1..], env)
  }

  /**
   * Carrying out reactions in order until one raises: the run completes
   * exactly when every reaction succeeds, with the calls of all of them;
   * otherwise it stops at the first failing reaction, with that reaction's
   * error and the calls of the reactions before it.
   */
  function Execute(reactions: seq<Reaction>, env: Env): (r: Run)
    ensures r.failure.None? <==> forall i :: 0 <= i < |reactions| ==> Perform(reactions[i], env).Success?
    ensures r.failure.None? ==> r.actions == Calls(reactions, env)
    ensures r.failure.Some? ==>
              exists k :: FailsFirstAt(reactions, env, k) && Perform(reactions[k], env) == Failure(r.failure.value)
                          && r.actions == Calls(reactions[..k], env)
    decreases |reactions|, 0
  {
    if reactions == [] then Run([], None)
    else
      match Perform(reactions[0], env)
      case Failure(e) =>
        assert reactions[..0] == [];
        assert FailsFirstAt(reactions, env, 0);
        Run([], Some(e))
      case Success(acts) =>
        var rest := Execute(reactions[1..], env);
        assert forall i :: 1 <= i < |reactions| ==> reactions[i] == reactions[1..][i - 1];
        if rest.failure.None? then Run(acts + rest.actions, None)
        else
          FirstFailureShifts(reactions, env);
          Run(acts + rest.actions, rest.failure)
  }

  /** Reaction `k` is the first of `reactions` that raises. */
  ghost predicate FailsFirstAt(reactions: seq<Reaction>, env: Env, k: int)
  {
    && 0 <= k < |reactions|
    && Perform(reactions[k], env).Failure?
    && forall j :: 0 <= j < k ==> Perform(reactions[j], env).Success?
  }

  /** A first failure after a successful head is one position later in the whole run. */
  lemma FirstFailureShifts(reactions: seq<Reaction>, env: Env)
    requires reactions != []
    ensures Perform(reactions[0], env).Success? && Execute(reactions[1..], env).failure.Some? ==>
              var acts := Perform(reactions[0], env).value;
              var rest := Execute(reactions[1..], env);
              exists k :: FailsFirstAt(reactions, env, k) && Perform(reactions[k], env) == Failure(rest.failure.value)
                          && acts + rest.actions == Calls(reactions[..k], env)
    decreases |reactions| - 1, 1
  {
    if Perform(reactions[0], env).Success? && Execute(reactions[1..], env).failure.Some? {
      var acts := Perform(reactions[0], env).value;
      var rest := Execute(reactions[1..], env);
      var k :| FailsFirstAt(reactions[1..], env, k) && Perform(reactions[1..][k], env) == Failure(rest.failure.value)
               && rest.actions == Calls(reactions[1..][..k], env);
      FailsFirstAfterHead(reactions, env, k);
      assert FailsFirstAt(reactions, env, k + 1);
    }
  }

  /** Shifting one first failure past a successful head: positions and calls both move by one. */
  lemma FailsFirstAfterHead(reactions: seq<Reaction>, env: Env, k: int)
    requires reactions != [] && Perform(reactions[0], env).Success?
    requires FailsFirstAt(reactions[1..], env, k)
    ensures FailsFirstAt(reactions, env, k + 1)
    ensures reactions[k + 1] == reactions[1..][k]
    ensures Calls(reactions[..k + 1], env) == Perform(reactions[0], env).value + Calls(reactions[1..][..k], env)
  {
    forall j | 0 <= j < k + 1
      ensures Perform(reactions[j], env).Success?
    {
      if j > 0 {
        assert reactions[j] == reactions[1..][j - 1];
      }
    }
    assert reactions[k + 1] == reactions[1..][k];
    assert reactions[..k + 1][1..] == reactions[1..][..k];
  }

  /** Retweet reactions never fail and make exactly one `retweet` call each. */
  lemma {:induction false} ExecuteRetweets(reactions: seq<Reaction>, env: Env)
    requires forall i :: 0 <= i < |reactions| ==> reactions[i].Retweet?
    ensures Execute(reactions, env).failure.None?
    ensures |Execute(reactions, env).actions| == |reactions|
    ensures forall i :: 0 <= i < |reactions| ==>
              Execute(reactions, env).actions[i] == RetweetCall(reactions[i].id)
    decreases |reactions|
  {
    if reactions != [] {
      ExecuteRetweets(reactions[1..], env);
    }
  }

  /** The updates of a successful reply followed by further calls: the reply's own update comes first. */
  lemma ReplyThenRest(r: Reaction, env: Env, later: seq<Action>)
    requires !r.Retweet? && Perform(r, env).Success?
    ensures var all := Updates(Perform(r, env).value + later);
            && all == Updates(Perform(r, env).value) + Updates(later)
            && |Updates(Perform(r, env).value)| == 1
            && (r.ReplyToStatus? ==> InReplyToKey in all[0] && all[0][InReplyToKey] == IntValue(r.status.id))
  {
    UpdatesAppend(Perform(r, env).value, later);
  }

  /** Replies never retweet, whether or not the run completes. */
  lemma {:induction false} ExecuteRepliesNeverRetweet(reactions: seq<Reaction>, env: Env)
    requires forall i :: 0 <= i < |reactions| ==> !reactions[i].Retweet?
    ensures forall a :: a in Execute(reactions, env).actions ==> !a.RetweetCall?
    decreases |reactions|
  {
    if reactions != [] {
      var res := Perform(reactions[0], env);
      if res.Success? {
        var rest := Execute(reactions[1..], env);
        assert Execute(reactions, env).actions == res.value + rest.actions;
        ExecuteRepliesNeverRetweet(reactions[1..], env);
      } else {
        assert Execute(reactions, env).actions == [];
      }
    }
  }

  /**
   * A run of replies that completes makes one `update_status` call per
   * reaction, in order, each answering its status.
   */
  lemma {:induction false} ExecuteReplies(reactions: seq<Reaction>, env: Env)
    requires forall i :: 0 <= i < |reactions| ==> !reactions[i].Retweet?
    ensures Execute(reactions, env).failure.None? ==>
              |Updates(Execute(reactions, env).actions)| == |reactions|
    ensures Execute(reactions, env).failure.None? ==>
              forall i :: 0 <= i < |reactions| && reactions[i].ReplyToStatus? ==>
                && InReplyToKey in Updates(Execute(reactions, env).actions)[i]
                && Updates(Execute(reactions, env).actions)[i][InReplyToKey] == IntValue(reactions[i].status.id)
    decreases |reactions|
  {
    if reactions != [] {
      var res := Perform(reactions[0], env);
      if res.Success? {
        var rest := Execute(reactions[1..], env);
        var all := res.value + rest.actions;
        assert Execute(reactions, env) == Run(all, rest.failure);
        ExecuteReplies(reactions[1..], env);
        if rest.failure.None? {
          ReplyThenRest(reactions[0], env, rest.actions);
          var later := Updates(rest.actions);
          forall i | 0 <= i < |reactions| && reactions[i].ReplyToStatus?
            ensures InReplyToKey in Updates(all)[i]
            ensures Updates(all)[i][InReplyToKey] == IntValue(reactions[i].status.id)
          {
            if i > 0 {
              assert reactions[i] == reactions[1..][i - 1];
              assert Updates(all)[i] == later[i - 1];
            }
          }
        }
      }
    }
  }

  /** What one iteration leaves behind: the mark, the calls made, and the exception that ended it. */
  datatype Outcome = Outcome(sinceId: int, actions: seq<Action>, failure: Option<Error>)

  /**
   * The loop body as the source runs it: each item moves the mark, and a
   * matched item's reaction is carried out at once; a reaction that raises
   * ends the iteration with the calls made so far. The mark never goes down,
   * and an iteration that completes leaves it at the maximum over the batch.
   */
  function Iterate(batch: seq<FeedItem>, regex: Option<Pattern>, sinceId: int, mode: Mode, env: Env): (r: Outcome)
    ensures r.sinceId >= sinceId
    ensures r.failure.None? ==> IsHighWater(r.sinceId, sinceId, batch)
    decreases |batch|
  {
    if batch == [] then Outcome(sinceId, [], None)
    else
      var (last, matched) := LastIdAndMatch(batch[0].id, batch[0].text, sinceId, regex);
      if !matched then
        var rest := Iterate(batch[1..], regex, last, mode, env);
        if rest.failure.Some? then rest
        else
          HighWaterStep(rest.sinceId, sinceId, last, batch);
          rest
      else
        match Perform(ReactTo(batch[0], mode), env)
        case Failure(e) => Outcome(last, [], Some(e))
        case Success(acts) =>
          var rest := Iterate(batch[1..], regex, last, mode, env);
          if rest.failure.Some? then Outcome(rest.sinceId, acts + rest.actions, rest.failure)
          else
            HighWaterStep(rest.sinceId, sinceId, last, batch);
            Outcome(rest.sinceId, acts + rest.actions, rest.failure)
  }

  /**
   * Reacting while folding is the same as folding first and then carrying out
   * the reactions in order: same calls, same exception, and, when nothing
   * raised, the same final mark.
   */
  lemma {:induction false} IterateIsFoldThenExecute(batch: seq<FeedItem>, regex: Option<Pattern>, sinceId: int, mode: Mode, env: Env)
    ensures var it := Iterate(batch, regex, sinceId, mode, env);
            var ex := Execute(Fold(batch, regex, sinceId, mode).reactions, env);
            && it.actions == ex.actions
            && it.failure == ex.failure
            && (it.failure.None? ==> it.sinceId == Fold(batch, regex, sinceId, mode).sinceId)
    decreases |batch|
  {
    if batch != [] {
      var (last, matched) := LastIdAndMatch(batch[0].id, batch[0].text, sinceId, regex);
      IterateIsFoldThenExecute(batch[1..], regex, last, mode, env);
      var it := Iterate(batch[1..], regex, last, mode, env);
      var rest := Fold(batch[1..], regex, last, mode);
      var ex := Execute(rest.reactions, env);
      if matched {
        var rs := [ReactTo(batch[0], mode)] + rest.reactions;
        assert Fold(batch, regex, sinceId, mode) == Step(rest.sinceId, rs);
        assert rs[1..] == rest.reactions;
        match Perform(ReactTo(batch[0], mode), env)
        case Failure(e) =>
          assert Iterate(batch, regex, sinceId, mode, env) == Outcome(last, [], Some(e));
          assert Execute(rs, env) == Run([], Some(e));
        case Success(acts) =>
          assert Iterate(batch, regex, sinceId, mode, env) == Outcome(it.sinceId, acts + it.actions, it.failure);
          assert Execute(rs, env) == Run(acts + ex.actions, ex.failure);
      } else {
        assert Fold(batch, regex, sinceId, mode) == rest;
        assert Iterate(batch, regex, sinceId, mode, env) == it;
      }
    }
  }

  /**
   * One iteration of `_tweet_interact_mentions` / `_tweet_interact_searches`.
   * In retweet mode it always completes with one `retweet` per matched item,
   * in batch order. In reply mode it never retweets and, when it completes,
   * makes one `update_status` per matched item, in order, each replying to
   * its item. When it completes the mark is the maximum over the whole batch.
   * Its calls and its exception are those of running the pass's reactions in
   * order, so it completes exactly when every reaction succeeds.
   */
  function InteractIteration(batch: seq<FeedItem>, retweet: bool, regex: Option<Pattern>, sinceId: int, env: Env): (r: Outcome)
    ensures var ex := Execute(InteractStep(batch, retweet, regex, sinceId).reactions, env);
              r.actions == ex.actions && r.failure == ex.failure
    ensures r.failure.None? ==> IsHighWater(r.sinceId, sinceId, batch)
    ensures retweet ==>
              && r.failure.None?
              && |r.actions| == |Matched(batch, regex)|
              && forall i :: 0 <= i < |r.actions| ==> r.actions[i] == RetweetCall(Matched(batch, regex)[i].id)
    ensures !retweet ==> forall a :: a in r.actions ==> !a.RetweetCall?
    ensures !retweet && r.failure.None? ==>
              && |Updates(r.actions)| == |Matched(batch, regex)|
              && forall i :: 0 <= i < |Matched(batch, regex)| ==>
                   && InReplyToKey in Updates(r.actions)[i]
                   && Updates(r.actions)[i][InReplyToKey] == IntValue(Matched(batch, regex)[i].id)
  {
    var mode := InteractMode(retweet);
    assert InteractStep(batch, retweet, regex, sinceId) == Fold(batch, regex, sinceId, mode);
    IterateIsFoldThenExecute(batch, regex, sinceId, mode, env);
    if retweet then
      RetweetIteration(batch, regex, sinceId, env);
      Iterate(batch, regex, sinceId, mode, env)
    else
      ReplyIterationNeverRetweets(batch, regex, sinceId, env);
      ReplyIteration(batch, regex, sinceId, env);
      Iterate(batch, regex, sinceId, mode, env)
  }

  /** In retweet mode the loop body completes with one `retweet` per matched item, in order. */
  lemma RetweetIteration(batch: seq<FeedItem>, regex: Option<Pattern>, sinceId: int, env: Env)
    ensures var r := Iterate(batch, regex, sinceId, RetweetMode, env);
            && r.failure.None?
            && |r.actions| == |Matched(batch, regex)|
            && forall i :: 0 <= i < |r.actions| ==> r.actions[i] == RetweetCall(Matched(batch, regex)[i].id)
  {
    var step := InteractStep(batch, true, regex, sinceId);
    assert step == Fold(batch, regex, sinceId, RetweetMode);
    IterateIsFoldThenExecute(batch, regex, sinceId, RetweetMode, env);
    ExecuteRetweets(step.reactions, env);
  }

  /** In reply mode the loop body never retweets, whether or not it completes. */
  lemma ReplyIterationNeverRetweets(batch: seq<FeedItem>, regex: Option<Pattern>, sinceId: int, env: Env)
    ensures forall a :: a in Iterate(batch, regex, sinceId, ReplyMode, env).actions ==> !a.RetweetCall?
  {
    var step := InteractStep(batch, false, regex, sinceId);
    assert step == Fold(batch, regex, sinceId, ReplyMode);
    IterateIsFoldThenExecute(batch, regex, sinceId, ReplyMode, env);
    ExecuteRepliesNeverRetweet(step.reactions, env);
  }

  /** In reply mode a loop body that completes replies once to each matched item, in order. */
  lemma ReplyIteration(batch: seq<FeedItem>, regex: Option<Pattern>, sinceId: int, env: Env)
    ensures var r := Iterate(batch, regex, sinceId, ReplyMode, env);
            r.failure.None? ==>
              && |Updates(r.actions)| == |Matched(batch, regex)|
              && forall i :: 0 <= i < |Matched(batch, regex)| ==>
                   && InReplyToKey in Updates(r.actions)[i]
                   && Updates(r.actions)[i][InReplyToKey] == IntValue(Matched(batch, regex)[i].id)
  {
    var step := InteractStep(batch, false, regex, sinceId);
    assert step == Fold(batch, regex, sinceId, ReplyMode);
    IterateIsFoldThenExecute(batch, regex, sinceId, ReplyMode, env);
    ExecuteReplies(step.reactions, env);
  }

  /**
   * One iteration of `tweet_reply_messages`: only messages above the mark at
   * the start are looked at; it never retweets; when it completes it makes one
   * `update_status` per matched new message and the mark is the maximum over
   * the whole inbox. Its calls and its exception are those of running the
   * pass's reactions in order.
   */
  function MessageIteration(inbox: seq<FeedItem>, regex: Option<Pattern>, sinceId: int, env: Env): (r: Outcome)
    ensures var ex := Execute(MessageStep(inbox, regex, sinceId).reactions, env);
              r.actions == ex.actions && r.failure == ex.failure
    ensures r.failure.None? ==> IsHighWater(r.sinceId, sinceId, inbox)
    ensures forall a :: a in r.actions ==> !a.RetweetCall?
    ensures r.failure.None? ==> |Updates(r.actions)| == |Matched(NewerThan(inbox, sinceId), regex)|
  {
    var newer := NewerThan(inbox, sinceId);
    IterateIsFoldThenExecute(newer, regex, sinceId, MessageReplyMode, env);
    var step := MessageStep(inbox, regex, sinceId);
    ExecuteRepliesNeverRetweet(step.reactions, env);
    ExecuteReplies(step.reactions, env);
    Iterate(newer, regex, sinceId, MessageReplyMode, env)
  }

  /** A pattern that matches nothing: no reaction and no call, yet the mark still advances. */
  lemma NoMatchStillAdvances(batch: seq<FeedItem>, retweet: bool, p: Pattern, sinceId: int, env: Env)
    requires forall i :: 0 <= i < |batch| ==> !Search(p, batch[i].text)
    ensures InteractIteration(batch, retweet, Some(p), sinceId, env).actions == []
    ensures InteractIteration(batch, retweet, Some(p), sinceId, env).failure.None?
    ensures IsHighWater(InteractIteration(batch, retweet, Some(p), sinceId, env).sinceId, sinceId, batch)
  {
    var m := Matched(batch, Some(p));
    MatchedIsFilter(batch, Some(p));
    if m != [] {
      assert m[0] in batch;
    }
    IterateIsFoldThenExecute(batch, Some(p), sinceId, InteractMode(retweet), env);
  }

  /**
   * Messages are never handled twice: whatever a later iteration replies to has
   * an id above every message of an earlier inbox.
   */
  lemma MessagesNeverReprocessed(first: seq<FeedItem>, second: seq<FeedItem>, regex: Option<Pattern>, sinceId: int)
    ensures var next := MessageStep(second, regex, MessageStep(first, regex, sinceId).sinceId);
            forall i, j :: 0 <= i < |next.reactions| && 0 <= j < |first| ==>
              first[j].id < next.reactions[i].msg.id
  {
  }

  /** Handling the same inbox again replies to nothing. */
  lemma MessageReplayIsQuiet(inbox: seq<FeedItem>, regex: Option<Pattern>, sinceId: int)
    ensures MessageStep(inbox, regex, MessageStep(inbox, regex, sinceId).sinceId).reactions == []
  {
    var h := MessageStep(inbox, regex, sinceId).sinceId;
    NewerAboveHighWaterIsEmpty(inbox, sinceId, h);
  }

  /** Nothing in a batch lies above its own high-water mark. */
  lemma NewerAboveHighWaterIsEmpty(batch: seq<FeedItem>, start: int, h: int)
    requires IsHighWater(h, start, batch)
    ensures NewerThan(batch, h) == []
  {
    NothingNewer(batch, h);
  }

  /** When no id is above the mark, the message pre-filter keeps nothing. */
  lemma {:induction false} NothingNewer(batch: seq<FeedItem>, h: int)
    requires forall i :: 0 <= i < |batch| ==> batch[i].id <= h
    ensures NewerThan(batch, h) == []
    decreases |batch|
  {
    if batch != [] {
      assert forall i :: 0 <= i < |batch[1..]| ==> batch[1..][i] == batch[i + 1];
      NothingNewer(batch[1..], h);
    }
  }

  /**
   * As written, the search loop never passes `since_id` to the search, so the
   * same results come back and are reacted to again on the next iteration.
   */
  lemma SearchRepeatsReactions()
    ensures var batch := [FeedItem(5, "botweet")];
            var first := InteractStep(batch, true, None, 1);
            && first.reactions == [Retweet(5)]
            && InteractStep(batch, true, None, first.sinceId).reactions == [Retweet(5)]
  {
  }

  /**
   * The search iteration with `since_id` fed back into the query, modelled as
   * a search that only returns results above the mark: results are not
   * reacted to twice.
   */
  function SearchStepSinceId(results: seq<FeedItem>, retweet: bool, regex: Option<Pattern>, sinceId: int): (r: Step)
    ensures IsHighWater(r.sinceId, sinceId, results)
    ensures |r.reactions| == |Matched(NewerThan(results, sinceId), regex)|
    ensures forall i :: 0 <= i < |r.reactions| ==> r.reactions[i] == ReactTo(Matched(NewerThan(results, sinceId), regex)[i], InteractMode(retweet))
  {
    var r := Fold(NewerThan(results, sinceId), regex, sinceId, InteractMode(retweet));
    HighWaterIgnoresOld(r.sinceId, sinceId, results);
    r
  }

  /** With `since_id` fed back, a repeated search reacts to nothing. */
  lemma SearchSinceIdNoRepeat(results: seq<FeedItem>, retweet: bool, regex: Option<Pattern>, sinceId: int)
    ensures SearchStepSinceId(results, retweet, regex, SearchStepSinceId(results, retweet, regex, sinceId).sinceId).reactions == []
  {
    var h := SearchStepSinceId(results, retweet, regex, sinceId).sinceId;
    NewerAboveHighWaterIsEmpty(results, sinceId, h);
  }

  /**
   * The mentions scenario: mark 100, mentions 101, 102 and 103 of which two
   * match; two replies are sent and the mark ends at 103.
   */
  lemma MentionScenario()
    ensures var p := Pattern(t => t == "hello");
            var batch := [FeedItem(101, "hello"), FeedItem(102, "spam"), FeedItem(103, "hello")];
            var r := InteractStep(batch, false, Some(p), 100);
            && r.sinceId == 103
            && r.reactions == [ReplyToStatus(FeedItem(101, "hello")), ReplyToStatus(FeedItem(103, "hello"))]
  {
  }
}
