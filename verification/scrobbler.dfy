/**
 * `scrobble_track` (src/scrobbler.rs): scrobble one track at the current
 * time and map the API outcome to the command's outcome. A track the
 * service declines to record (`Unscrobbled`) is not an error.
 */
module Scrobbler {
  import opened Wrappers
  import opened KeySort
  import opened Signature
  import opened LastfmApi

  /** Why the command failed: the credentials could not be loaded, or the API call failed. */
  datatype AppError = Config(reason: string) | Api(error: ApiError)

  /** The outcome policy: `Unscrobbled` becomes success, every other error is passed on. */
  function TrackOutcome(r: Run<(), ApiError>): (o: Run<(), AppError>)
    ensures o.Panicked? <==> r.Panicked?
    ensures o == Returned(Success(())) <==>
      r == Returned(Success(())) || (r.Returned? && r.result.Failure? && r.result.error.Unscrobbled?)
    ensures o.Returned? && o.result.Failure? <==>
      r.Returned? && r.result.Failure? && !r.result.error.Unscrobbled?
    ensures o.Returned? && o.result.Failure? ==> o.result.error == Api(r.result.error)
  {
    match r
    case Panicked => Panicked
    case Returned(Success(())) => Returned(Success(()))
    case Returned(Failure(Unscrobbled(_))) => Returned(Success(()))
    case Returned(Failure(e)) => Returned(Failure(Api(e)))
  }

  /**
   * `scrobble_track`. `config` is the result of loading the credentials,
   * `now` the clock reading in unix seconds, `order` the order the hash map
   * yields the scrobble parameters in. The dry-run flag is accepted and
   * not consulted: the scrobble is posted either way.
   */
  function ScrobbleTrack(
    config: Result<AuthConfig, string>, artist: string, track: string, dryrun: bool, now: int,
    order: seq<string>, md5: Md5, server: Params -> HttpReply<XmlDoc>): (o: Run<(), AppError>)
    requires IsEnumeration(order, ScrobbleKeySet)
    ensures config.Failure? ==> o == Returned(Failure(Config(config.error)))
    ensures o.Returned? && o.result.Failure? ==> (o.result.error.Config? <==> config.Failure?)
    ensures o.Returned? && o.result.Failure? && o.result.error.Api? ==>
      !o.result.error.error.Unscrobbled? && !o.result.error.error.Json?
    ensures config.Success? ==> var reply := server(ScrobbleForm(config.value, artist, track, now, order, md5));
      reply.Received? && reply.success ==> o == TrackOutcome(ParseScrobbleResponse(reply.body))
    ensures config.Success? ==> var reply := server(ScrobbleForm(config.value, artist, track, now, order, md5));
      reply.Received? && !reply.success ==> o == Returned(Failure(Api(Generic(UnsuccessfulRequest))))
    ensures config.Success? ==> var reply := server(ScrobbleForm(config.value, artist, track, now, order, md5));
      reply.Unsent? ==> o == Returned(Failure(Api(Generic(reply.error))))
  {
    match config
    case Failure(reason) => Returned(Failure(Config(reason)))
    case Success(auth) => TrackOutcome(Scrobble(auth, artist, track, now, order, md5, server))
  }

  /** The dry-run flag makes no difference to the outcome. */
  lemma DryRunIgnored(
    config: Result<AuthConfig, string>, artist: string, track: string, now: int,
    order: seq<string>, md5: Md5, server: Params -> HttpReply<XmlDoc>)
    requires IsEnumeration(order, ScrobbleKeySet)
    ensures ScrobbleTrack(config, artist, track, true, now, order, md5, server)
         == ScrobbleTrack(config, artist, track, false, now, order, md5, server)
  {
  }

  /** The command's outcome does not depend on the order the hash map yields the scrobble keys in. */
  lemma ScrobbleTrackOrderIndependent(
    config: Result<AuthConfig, string>, artist: string, track: string, dryrun: bool, now: int,
    order1: seq<string>, order2: seq<string>, md5: Md5, server: Params -> HttpReply<XmlDoc>)
    requires IsEnumeration(order1, ScrobbleKeySet) && IsEnumeration(order2, ScrobbleKeySet)
    ensures ScrobbleTrack(config, artist, track, dryrun, now, order1, md5, server)
         == ScrobbleTrack(config, artist, track, dryrun, now, order2, md5, server)
  {
    if config.Success? {
      ScrobbleOrderIndependent(config.value, artist, track, now, order1, order2, md5, server);
    }
  }

  /** A single track the service declines to record still ends the command successfully. */
  lemma IgnoredTrackSucceeds(code: string, text: Option<string>)
    ensures TrackOutcome(ScrobbleReplyOutcome(
      Received(true, Success(ScrobblesReply("0", "1", Some(IgnoredMessageElement(Some(code), text)))))))
      == Returned(Success(()))
  {
    IgnoredReply(code, text);
  }

  /** A failure status from the service is the command's error, unchanged. */
  lemma FailedStatusPropagates(body: XmlDoc)
    ensures TrackOutcome(ScrobbleReplyOutcome(Received(false, body)))
      == Returned(Failure(Api(Generic(UnsuccessfulRequest))))
  {
  }
}
