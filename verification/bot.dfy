/**
 * The `Botweet` class of botweet/bot.py, apart from its loops: whether the
 * API client is configured, the `api` guard, `stop_event`, and the per-tick
 * post of `tweet_per_time`.
 */
module Bot {
  import opened Wrappers
  import opened Tweeting
  import opened BotweetEvent

  /** The authenticated client, identified by the access credentials it was built with. */
  datatype Client = Client(accessToken: string, accessSecret: string)

  const ApiNotConfiguredMessage := "API not yet configured. Call the set_access method to configure it"
  const AlreadyStoppedMessage := "Event is already stopped"

  /**
   * The access part of `__init__`: a client exists exactly when both access
   * credentials are present and non-empty; otherwise `_api` stays `None`.
   */
  function Access(token: Option<string>, secret: Option<string>): (api: Option<Client>)
    ensures api.Some? <==> token.Some? && token.value != "" && secret.Some? && secret.value != ""
    ensures api.Some? ==> api.value == Client(token.value, secret.value)
  {
    if token.Some? && token.value != "" && secret.Some? && secret.value != "" then
      Some(Client(token.value, secret.value))
    else None
  }

  /** The `api` property: the client, or the AttributeError when none is configured. */
  function Api(api: Option<Client>): (r: Result<Client, string>)
    ensures r.Failure? <==> api.None?
    ensures r.Failure? ==> r.error == ApiNotConfiguredMessage
    ensures r.Success? ==> api == Some(r.value)
  {
    match api
    case None => Failure(ApiNotConfiguredMessage)
    case Some(c) => Success(c)
  }

  /** The `api` guard passes after `__init__` exactly when both access credentials were given. */
  lemma ApiAfterAccess(token: Option<string>, secret: Option<string>)
    ensures Api(Access(token, secret)).Success? <==>
              token.Some? && token.value != "" && secret.Some? && secret.value != ""
  {
  }

  /** The event after `stop_event`, and the warning it printed, if any. */
  datatype StopResult = StopResult(event: Latch, warning: Option<string>)

  /**
   * `stop_event`: an event already set is left set and only a warning is
   * printed; an unset event is set, silently.
   */
  function StopEvent(event: Latch): (r: StopResult)
    ensures Stopped(r.event)
    ensures r.warning.Some? <==> Stopped(event)
    ensures r.warning.Some? ==> r.warning.value == AlreadyStoppedMessage
    ensures Stopped(event) ==> r.event == event
  {
    if event.Set? then StopResult(event, Some(AlreadyStoppedMessage))
    else StopResult(Stop(event), None)
  }

  /**
   * Stopping twice is stopping once: the second call changes nothing and only
   * warns, and both agree with the event's own `stop`.
   */
  lemma StopEventTwice(event: Latch)
    ensures StopEvent(StopEvent(event).event).event == StopEvent(event).event == Stop(event)
    ensures StopEvent(StopEvent(event).event).warning == Some(AlreadyStoppedMessage)
  {
  }

  /**
   * One tick of `tweet_per_time`: the descriptor is called with no arguments
   * and its dictionary, completed by `_tweet`, is posted once with no reply
   * metadata added; the reply keys are passed through as the descriptor set
   * them, and nothing is retweeted. It raises only what the media upload raises.
   */
  function TimedPostTick(env: Env): (r: Result<seq<Action>, Error>)
    ensures r.Success? ==> |r.value| >= 1 && r.value[|r.value| - 1].UpdateStatus?
    ensures r.Success? ==>
              var info := env.describe(OnTick);
              var sent := r.value[|r.value| - 1].params;
              forall k :: k in {InReplyToKey, AutoPopulateKey} ==>
                (k in sent <==> k in info) && (k in info ==> sent[k] == info[k])
    ensures r.Failure? <==>
              Truthy(Get(env.describe(OnTick), MediasKey)) &&
              UploadMedias(Get(env.describe(OnTick), MediasKey), env.mediaId).Failure?
    ensures r.Failure? ==> r.error == UploadMedias(Get(env.describe(OnTick), MediasKey), env.mediaId).error
    ensures r.Success? ==>
              && (forall a :: a in r.value ==> !a.RetweetCall?)
              && Updates(r.value) == [ComposeTweet(env.describe(OnTick), None, env.mediaId).value.params]
    ensures r.Success? ==> r.value[..|r.value| - 1] == ComposeTweet(env.describe(OnTick), None, env.mediaId).value.uploads
  {
    var r := PostTweet(env.describe(OnTick), None, env.mediaId);
    if r.Success? then
      var uploads := ComposeTweet(env.describe(OnTick), None, env.mediaId).value.uploads;
      assert r.value[..|r.value| - 1] == uploads;
      r
    else
      r
  }
}
