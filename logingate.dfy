/** The gate in front of the scanner: the helper reads three signals from
    the YouTube page to decide whether the viewer is signed in, and only
    then requests the channel's streams page and replaces its list with
    what the scanner finds there.

    The DOM queries and the HTTP response are inputs here: a query is the
    boolean "an element matched", and a response is its `ok` flag, its
    status and its body text. */
module LoginGate {
  import opened JsText
  import opened VideoScanner

  /** Whether each of the three page queries found an element: the avatar
      button of the top bar, a link to the Google sign-in service, and the
      "You" entry of the mini guide. */
  datatype PageProbes = PageProbes(avatarButton: bool, signInLink: bool, youEntry: bool)

  /** The object `detectLoginState` returns. */
  datatype Detection = Detection(loggedIn: bool, avatarDetected: bool, signInButtonDetected: bool, badgeDetected: bool)

  /** `detectLoginState()`: signed in when the avatar button or the "You"
      entry is on the page; the sign-in link is reported but takes no part
      in the verdict. */
  function DetectLoginState(probes: PageProbes): Detection
  {
    Detection(probes.avatarButton || probes.youEntry, probes.avatarButton, probes.signInLink, probes.youEntry)
  }

  /** The sign-in link never changes the verdict: two pages that differ
      only in it are judged alike, so a page showing both an avatar and a
      sign-in link counts as signed in. */
  lemma SignInLinkIgnored(probes: PageProbes, signInLink: bool)
    ensures DetectLoginState(probes.(signInLink := signInLink)).loggedIn == DetectLoginState(probes).loggedIn
  {
  }

  /** The viewer counts as signed in exactly when one of the two account
      signals is present. */
  lemma LoggedInIffAccountSignal(probes: PageProbes)
    ensures DetectLoginState(probes).loggedIn <==> probes.avatarButton || probes.youEntry
  {
  }

  /** What `fetch(CHANNEL_STREAMS_URL, …)` resolved to. */
  datatype HttpResponse = HttpResponse(ok: bool, status: int, body: JsString)

  /** The text of the helper's message line. */
  datatype Message =
    | NoMessage
    | SignInPrompt          // ask the viewer to sign in
    | NoLiveVideos          // the channel has no live videos
    | Loaded(count: nat)    // `count` live videos were found
    | RequestFailed(status: int)

  /** The parts of the content script's `state` the gate updates, and what
      it last put on screen. */
  class LiveHelper {
    /** `state.isLoggedIn`: `null` until a check finds the viewer signed in. */
    var isLoggedIn: Option<bool>
    /** `state.videos`. */
    var videos: seq<VideoRecord>
    /** The list last passed to `renderList`. */
    var displayed: seq<VideoRecord>
    /** The message line. */
    var message: Message

    /** Nothing ever records a signed-out verdict: `isLoggedIn` is `null`
        or `true`. */
    predicate Valid()
      reads this
    {
      isLoggedIn != Some(false)
    }

    constructor()
      ensures Valid()
      ensures isLoggedIn == None && videos == [] && displayed == [] && message == NoMessage
    {
      isLoggedIn := None;
      videos := [];
      displayed := [];
      message := NoMessage;
    }

    /** `fetchLiveVideos()`: on an ok response the body's live videos
        replace the list, which is drawn, and the message gives their
        number; otherwise the message reports the status and the list and
        the screen stay as they were. */
    method FetchLiveVideos(response: HttpResponse)
      requires Valid()
      modifies this
      ensures Valid()
      ensures isLoggedIn == old(isLoggedIn)
      ensures response.ok ==>
                && videos == LiveVideos(response.body)
                && displayed == videos
                && message == (if videos == [] then NoLiveVideos else Loaded(|videos|))
      ensures !response.ok ==>
                videos == old(videos) && displayed == old(displayed) && message == RequestFailed(response.status)
    {
      if !response.ok {
        message := RequestFailed(response.status);
        return;
      }
      var found := ParseLiveVideosFromHtml(response.body);
      videos := found;
      displayed := found;
      if |found| == 0 {
        message := NoLiveVideos;
      } else {
        message := Loaded(|found|);
      }
    }

    /** `checkLoginAndFetch()`: a signed-out page gets the sign-in prompt
        and an empty list, with no request made and `isLoggedIn` left
        alone; a signed-in page sets `isLoggedIn` and fetches. `response`
        is what the request would return. */
    method CheckLoginAndFetch(probes: PageProbes, response: HttpResponse)
      requires Valid()
      modifies this
      ensures Valid()
      ensures !DetectLoginState(probes).loggedIn ==>
                && isLoggedIn == old(isLoggedIn)
                && videos == old(videos)
                && displayed == []
                && message == SignInPrompt
      ensures DetectLoginState(probes).loggedIn ==>
                && isLoggedIn == Some(true)
                && (response.ok ==>
                      && videos == LiveVideos(response.body)
                      && displayed == videos
                      && message == (if videos == [] then NoLiveVideos else Loaded(|videos|)))
                && (!response.ok ==>
                      videos == old(videos) && displayed == old(displayed) && message == RequestFailed(response.status))
    {
      var detection := DetectLoginState(probes);
      if !detection.loggedIn {
        message := SignInPrompt;
        displayed := [];
        return;
      }
      isLoggedIn := Some(true);
      FetchLiveVideos(response);
    }

    /** The refresh button: fetch again when a check found the viewer
        signed in; otherwise nothing happens. */
    method Refresh(response: HttpResponse)
      requires Valid()
      modifies this
      ensures Valid()
      ensures isLoggedIn == old(isLoggedIn)
      ensures old(isLoggedIn) == Some(true) && response.ok ==>
                && videos == LiveVideos(response.body)
                && displayed == videos
                && message == (if videos == [] then NoLiveVideos else Loaded(|videos|))
      ensures old(isLoggedIn) == Some(true) && !response.ok ==>
                videos == old(videos) && displayed == old(displayed) && message == RequestFailed(response.status)
      ensures old(isLoggedIn) != Some(true) ==>
                videos == old(videos) && displayed == old(displayed) && message == old(message)
    {
      if isLoggedIn == Some(true) {
        FetchLiveVideos(response);
      }
    }
  }
}
