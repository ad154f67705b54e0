/**
 * Tweet construction in botweet/bot.py: `_tweet` turns the dictionary a
 * caller-supplied descriptor returns into one `update_status` call, after
 * adding reply metadata and uploading the listed media (`_upload_medias`).
 * Every remote call is an emitted `Action`.
 */
module Tweeting {
  import opened Wrappers

  /** One item of a fetched feed: a mention, a search result or a direct message. */
  datatype FeedItem = FeedItem(id: int, text: string)

  /** The values a descriptor's dictionary holds, as far as `_tweet` looks at them. */
  datatype Value =
    | NoneValue
    | BoolValue(b: bool)
    | IntValue(i: int)
    | StrValue(s: string)
    | StrList(strs: seq<string>)
    | IntList(ints: seq<int>)

  /** The keyword arguments of `update_status`. */
  type Params = map<string, Value>

  const MediasKey := "medias"
  const MediaIdsKey := "media_ids"
  const InReplyToKey := "in_reply_to_status_id"
  const AutoPopulateKey := "auto_populate_reply_metadata"

  /** At most this many media may accompany one tweet. */
  const MaxMedias := 4

  /** The exceptions `_tweet` can raise before it makes any remote call. */
  datatype Error =
    | TooManyMedias       // the ValueError "Only 4 medias allowed per tweet"
    | MediasWithoutLength // the TypeError of `len()` on a number or a boolean
    | NotAMediaReference  // an item of `medias` that is not a path or URL

  /** A call into the remote client. */
  datatype Action =
    | RetweetCall(statusId: int)
    | MediaUpload(media: string)
    | UpdateStatus(params: Params)

  /** The keyword arguments a descriptor is called with. */
  datatype Trigger =
    | OnTick                   // `tweet_per_time`: no arguments
    | OnStatus(status: FeedItem) // a mention or search result
    | OnMessage(msg: FeedItem)   // a direct message

  /**
   * What the model does not see inside: the caller's descriptor
   * (`get_tweet_func`) and the media id the service assigns to an upload.
   */
  datatype Env = Env(describe: Trigger -> Params, mediaId: string -> int)

  /** Python truthiness. */
  predicate Truthy(v: Value)
  {
    match v
    case NoneValue => false
    case BoolValue(b) => b
    case IntValue(i) => i != 0
    case StrValue(s) => s != ""
    case StrList(xs) => xs != []
    case IntList(xs) => xs != []
  }

  /** `dict.get`: the value at `key`, or `None`. */
  function Get(info: Params, key: string): Value
  {
    if key in info then info[key] else NoneValue
  }

  /** Python's `len()`: defined on strings and lists only. */
  function Length(v: Value): Option<nat>
  {
    match v
    case StrValue(s) => Some(|s|)
    case StrList(xs) => Some(|xs|)
    case IntList(xs) => Some(|xs|)
    case _ => None
  }

  /**
   * The media references a `for` loop over `v` hands to the upload: the
   * one-character strings of a string, the items of a list of strings.
   */
  function MediaRefs(v: Value): Option<seq<string>>
  {
    match v
    case StrValue(s) => Some(seq(|s|, i requires 0 <= i < |s| => [s[i]]))
    case StrList(xs) => Some(xs)
    case IntList(xs) => if xs == [] then Some([]) else None
    case _ => None
  }

  /** The uploads performed and the ids they returned, in the same order. */
  datatype Uploaded = Uploaded(actions: seq<Action>, ids: seq<int>)

  /** The body of the `for media in medias` loop, one upload per reference. */
  function UploadAll(refs: seq<string>, mediaId: string -> int): (r: Uploaded)
    ensures |r.actions| == |refs| && |r.ids| == |refs|
    ensures forall i :: 0 <= i < |refs| ==>
              r.actions[i] == MediaUpload(refs[i]) && r.ids[i] == mediaId(refs[i])
    decreases |refs|
  {
    if refs == [] then Uploaded([], [])
    else
      var rest := UploadAll(refs[1..], mediaId);
      Uploaded([MediaUpload(refs[0])] + rest.actions, [mediaId(refs[0])] + rest.ids)
  }

  /**
   * `_upload_medias`: a value with no length raises before anything is
   * uploaded, and so do more than four media; a list of at most four that
   * is not a list of references raises too; otherwise every reference is
   * uploaded in order and one id per reference comes back.
   */
  function UploadMedias(medias: Value, mediaId: string -> int): (r: Result<Uploaded, Error>)
    ensures r == Failure(TooManyMedias) <==> Length(medias).Some? && Length(medias).value > MaxMedias
    ensures Length(medias).None? ==> r == Failure(MediasWithoutLength)
    ensures Length(medias).Some? && Length(medias).value <= MaxMedias && MediaRefs(medias).None? ==>
              r == Failure(NotAMediaReference)
    ensures r.Success? <==>
              Length(medias).Some? && Length(medias).value <= MaxMedias && MediaRefs(medias).Some?
    ensures r.Success? ==>
              var refs := MediaRefs(medias).value;
              && |refs| == Length(medias).value
              && |r.value.actions| == |refs| && |r.value.ids| == |refs|
              && forall i :: 0 <= i < |refs| ==>
                   r.value.actions[i] == MediaUpload(refs[i]) && r.value.ids[i] == mediaId(refs[i])
  {
    match Length(medias)
    case None => Failure(MediasWithoutLength)
    case Some(n) =>
      if n > MaxMedias then Failure(TooManyMedias)
      else
        match MediaRefs(medias)
        case None => Failure(NotAMediaReference)
        case Some(refs) => Success(UploadAll(refs, mediaId))
  }

  /** The keys `_tweet` writes when it replies to a status. */
  function ReplyKeys(status: Option<FeedItem>): set<string>
  {
    if status.Some? then {InReplyToKey, AutoPopulateKey} else {}
  }

  /** Every key `_tweet` writes into the descriptor's dictionary. */
  function WrittenKeys(status: Option<FeedItem>, withMedia: bool): set<string>
  {
    ReplyKeys(status) + (if withMedia then {MediaIdsKey} else {})
  }

  /** The dictionary with the reply metadata added when there is a status to reply to. */
  function WithReplyMetadata(info: Params, status: Option<FeedItem>): Params
  {
    match status
    case None => info
    case Some(s) => info[InReplyToKey := IntValue(s.id)][AutoPopulateKey := BoolValue(true)]
  }

  /** A tweet ready to send: the uploads it needs and the `update_status` arguments. */
  datatype Post = Post(uploads: seq<Action>, params: Params)

  /**
   * The first half of `_tweet`: the descriptor's dictionary `info`, completed
   * with reply metadata when `status` is given and with `media_ids` when
   * `medias` is truthy; every other key is passed through unchanged.
   */
  function ComposeTweet(info: Params, status: Option<FeedItem>, mediaId: string -> int): (r: Result<Post, Error>)
    ensures r.Failure? <==>
              Truthy(Get(info, MediasKey)) && UploadMedias(Get(info, MediasKey), mediaId).Failure?
    ensures r.Failure? ==> r.error == UploadMedias(Get(info, MediasKey), mediaId).error
    ensures r.Success? ==>
              r.value.params.Keys == info.Keys + WrittenKeys(status, Truthy(Get(info, MediasKey)))
    ensures r.Success? ==>
              forall k :: k in info && k !in WrittenKeys(status, Truthy(Get(info, MediasKey))) ==>
                r.value.params[k] == info[k]
    ensures r.Success? && status.Some? ==>
              && r.value.params[InReplyToKey] == IntValue(status.value.id)
              && r.value.params[AutoPopulateKey] == BoolValue(true)
    ensures r.Success? ==> (r.value.uploads != [] <==> Truthy(Get(info, MediasKey)))
    ensures r.Success? && Truthy(Get(info, MediasKey)) ==>
              r.value.uploads == UploadMedias(Get(info, MediasKey), mediaId).value.actions
    ensures r.Success? ==> forall i :: 0 <= i < |r.value.uploads| ==> r.value.uploads[i].MediaUpload?
    ensures r.Success? && Truthy(Get(info, MediasKey)) ==>
              && r.value.params[MediaIdsKey].IntList?
              && |r.value.params[MediaIdsKey].ints| == |r.value.uploads|
              && forall i :: 0 <= i < |r.value.uploads| ==>
                   r.value.params[MediaIdsKey].ints[i] == mediaId(r.value.uploads[i].media)
  {
    var replying := WithReplyMetadata(info, status);
    var medias := Get(replying, MediasKey);
    assert medias == Get(info, MediasKey);
    if !Truthy(medias) then Success(Post([], replying))
    else
      match UploadMedias(medias, mediaId)
      case Failure(e) => Failure(e)
      case Success(up) => Success(Post(up.actions, replying[MediaIdsKey := IntList(up.ids)]))
  }

  /**
   * `_tweet`: it raises exactly when composing the tweet raises, and then
   * makes no call at all; otherwise it makes exactly the uploads of the
   * dictionary's `medias`, then one `update_status` call carrying the
   * composed dictionary, and never retweets.
   */
  function PostTweet(info: Params, status: Option<FeedItem>, mediaId: string -> int): (r: Result<seq<Action>, Error>)
    ensures r.Failure? <==> ComposeTweet(info, status, mediaId).Failure?
    ensures r.Failure? ==> r.error == ComposeTweet(info, status, mediaId).error
    ensures r.Success? ==>
              && (forall a :: a in r.value ==> !a.RetweetCall?)
              && Updates(r.value) == [ComposeTweet(info, status, mediaId).value.params]
              && r.value[|r.value| - 1] == UpdateStatus(ComposeTweet(info, status, mediaId).value.params)
    ensures r.Success? ==> r.value[..|r.value| - 1] == ComposeTweet(info, status, mediaId).value.uploads
  {
    match ComposeTweet(info, status, mediaId)
    case Failure(e) => Failure(e)
    case Success(p) =>
      var acts := p.uploads + [UpdateStatus(p.params)];
      UpdatesOfUploads(p.uploads);
      UpdatesAppend(p.uploads, [UpdateStatus(p.params)]);
      assert Updates([UpdateStatus(p.params)]) == [p.params];
      assert forall a :: a in acts ==> a == UpdateStatus(p.params) || a in p.uploads;
      Success(acts)
  }

  /** The parameters of every `update_status` call among `actions`, in order. */
  function Updates(actions: seq<Action>): seq<Params>
    decreases |actions|
  {
    if actions == [] then []
    else (if actions[0].UpdateStatus? then [actions[0].params] else []) + Updates(actions[1..])
  }

  lemma {:induction false} UpdatesAppend(a: seq<Action>, b: seq<Action>)
    ensures Updates(a + b) == Updates(a) + Updates(b)
    decreases |a|
  {
    if a == [] {
      assert a + b == b;
    } else {
      var head := if a[0].UpdateStatus? then [a[0].params] else [];
      assert (a + b)[0] == a[0];
      assert (a + b)[1..] == a[1..] + b;
      UpdatesAppend(a[1..], b);
      calc {
        Updates(a + b);
        head + Updates(a[1..] + b);
        head + (Updates(a[1..]) + Updates(b));
        (head + Updates(a[1..])) + Updates(b);
      }
    }
  }

  lemma {:induction false} UpdatesOfUploads(a: seq<Action>)
    requires forall i :: 0 <= i < |a| ==> a[i].MediaUpload?
    ensures Updates(a) == []
    decreases |a|
  {
    if a != [] {
      UpdatesOfUploads(a[1..]);
    }
  }
}

