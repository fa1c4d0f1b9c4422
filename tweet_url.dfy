/** Recognising tweet URLs: the pattern `TWEET_URL_RE` and `parseTweetUrl`
    (tweet-screenshot.js lines 6 and 28-44).

    The pattern is anchored at the start only:
      http or https, "://", exactly "x.com" or "twitter.com", "/",
      a non-empty user name without '/', "/status/", one or more ASCII digits (greedy),
    and anything may follow. */
module TweetUrl {
  import opened Wrappers

  /** The two host names the pattern accepts, spelled exactly (the pattern is case-sensitive). */
  datatype Host = XCom | TwitterCom

  function HostName(h: Host): string {
    match h
    case XCom => "x.com"
    case TwitterCom => "twitter.com"
  }

  function SchemeName(secure: bool): string {
    if secure then "https" else "http"
  }

  /** What one successful match of the pattern determines: the optional `s`, the host
      (capture 1), the user name (capture 2) and the tweet id (capture 3). */
  datatype TweetUrlMatch = TweetUrlMatch(secure: bool, host: Host, username: string, tweetId: string)

  /** `\d` of a JavaScript regular expression: ASCII digits only. */
  predicate IsDigit(c: char) {
    '0' <= c <= '9'
  }

  predicate AllDigits(s: string) {
    forall i :: 0 <= i < |s| ==> IsDigit(s[i])
  }

  predicate StartsWithDigit(s: string) {
    |s| > 0 && IsDigit(s[0])
  }

  /** The captures a match can produce: `[^/]+` and `\d+`. */
  predicate WellFormed(m: TweetUrlMatch) {
    && m.username != []
    && '/' !in m.username
    && m.tweetId != []
    && AllDigits(m.tweetId)
  }

  /** The part of a URL matched after the host: "/" user "/status/" id. */
  function PathText(username: string, tweetId: string): string {
    "/" + (username + ("/status/" + tweetId))
  }

  /** "https://" or "http://". */
  function SchemeText(secure: bool): string {
    SchemeName(secure) + "://"
  }

  /** The text the pattern consumes when it matches with captures `m`. */
  function MatchedText(m: TweetUrlMatch): string {
    SchemeText(m.secure) + (HostName(m.host) + PathText(m.username, m.tweetId))
  }

  /** `url` begins with the text of `m`, and the digit run cannot be extended (greedy `\d+`). */
  predicate MatchesAt(url: string, m: TweetUrlMatch) {
    && MatchedText(m) <= url
    && !StartsWithDigit(url[|MatchedText(m)|..])
  }

  /** The longest prefix of `s` without '/': what `[^/]+` consumes before the next "/". */
  function UpToSlash(s: string): (r: string)
    ensures r <= s && '/' !in r
    ensures |r| == |s| || s[|r|] == '/'
  {
    if s == [] || s[0] == '/' then [] else [s[0]] + UpToSlash(s[1..])
  }

  /** The longest all-digit prefix of `s`: what a greedy `\d+` consumes. */
  function DigitRun(s: string): (r: string)
    ensures r <= s && AllDigits(r)
    ensures !StartsWithDigit(s[|r|..])
  {
    if StartsWithDigit(s) then [s[0]] + DigitRun(s[1..]) else []
  }

  lemma PrefixThen(a: string, b: string, s: string)
    requires a <= s && b <= s[|a|..]
    ensures a + b <= s
    ensures s[|a + b|..] == s[|a|..][|b|..]
  {
    assert s == a + s[|a|..];
    assert s[|a|..] == b + s[|a|..][|b|..];
    assert s == (a + b) + s[|a|..][|b|..];
  }

  /** Matching after the host: `\/([^/]+)\/status\/(\d+)`. */
  function MatchPath(secure: bool, host: Host, s: string): (r: Option<TweetUrlMatch>)
    ensures r.Some? ==> && r.value.secure == secure && r.value.host == host
                        && WellFormed(r.value)
                        && PathText(r.value.username, r.value.tweetId) <= s
                        && !StartsWithDigit(s[|PathText(r.value.username, r.value.tweetId)|..])
  {
    if "/" <= s then
      var afterSlash := s[1..];
      var user := UpToSlash(afterSlash);
      var rest := afterSlash[|user|..];
      if user != [] && "/status/" <= rest then
        var id := DigitRun(rest[8..]);
        if id != [] then
          PrefixThen("/status/", id, rest);
          PrefixThen(user, "/status/" + id, afterSlash);
          PrefixThen("/", user + ("/status/" + id), s);
          Some(TweetUrlMatch(secure, host, user, id))
        else None
      else None
    else None
  }

  /** Matching after the scheme: `(x\.com|twitter\.com)` and the rest. */
  function MatchHost(secure: bool, s: string): (r: Option<TweetUrlMatch>)
    ensures r.Some? ==> && r.value.secure == secure && WellFormed(r.value)
                        && HostName(r.value.host) + PathText(r.value.username, r.value.tweetId) <= s
                        && !StartsWithDigit(s[|HostName(r.value.host) + PathText(r.value.username, r.value.tweetId)|..])
  {
    if HostName(XCom) <= s then
      var r := MatchPath(secure, XCom, s[|HostName(XCom)|..]);
      if r.Some? then
        PrefixThen(HostName(XCom), PathText(r.value.username, r.value.tweetId), s);
        r
      else None
    else if HostName(TwitterCom) <= s then
      var r := MatchPath(secure, TwitterCom, s[|HostName(TwitterCom)|..]);
      if r.Some? then
        PrefixThen(HostName(TwitterCom), PathText(r.value.username, r.value.tweetId), s);
        r
      else None
    else None
  }

  /** `url.match(TWEET_URL_RE)`: the captures of the match, if there is one. */
  function MatchTweetUrl(url: string): (r: Option<TweetUrlMatch>)
    ensures r.Some? ==> WellFormed(r.value) && MatchesAt(url, r.value)
  {
    var secure := SchemeText(true) <= url;
    if secure || SchemeText(false) <= url then
      var r := MatchHost(secure, url[|SchemeText(secure)|..]);
      if r.Some? then
        PrefixThen(SchemeText(secure), HostName(r.value.host) + PathText(r.value.username, r.value.tweetId), url);
        r
      else None
    else None
  }

  lemma {:induction false} UpToSlashOf(u: string, rest: string)
    requires '/' !in u && "/" <= rest
    ensures UpToSlash(u + rest) == u
  {
    if u == [] {
      assert u + rest == rest;
    } else {
      assert (u + rest)[1..] == u[1..] + rest;
      UpToSlashOf(u[1..], rest);
    }
  }

  lemma {:induction false} DigitRunOf(d: string, tail: string)
    requires AllDigits(d)
    ensures DigitRun(d + tail) == d + DigitRun(tail)
  {
    if d == [] {
      assert d + tail == tail;
    } else {
      assert (d + tail)[1..] == d[1..] + tail;
      DigitRunOf(d[1..], tail);
      assert d == [d[0]] + d[1..];
    }
  }

  lemma MatchPathGreedy(secure: bool, host: Host, username: string, tweetId: string, tail: string)
    requires WellFormed(TweetUrlMatch(secure, host, username, tweetId))
    ensures MatchPath(secure, host, PathText(username, tweetId) + tail)
         == Some(TweetUrlMatch(secure, host, username, tweetId + DigitRun(tail)))
  {
    var s := PathText(username, tweetId) + tail;
    var rest := "/status/" + (tweetId + tail);
    assert s[1..] == username + rest;
    UpToSlashOf(username, rest);
    assert s[1..][|username|..] == rest;
    assert rest[8..] == tweetId + tail;
    DigitRunOf(tweetId, tail);
  }

  /** After "http(s)://" the host is matched, with the same `s`. */
  lemma MatchAfterScheme(secure: bool, rest: string)
    ensures MatchTweetUrl(SchemeText(secure) + rest) == MatchHost(secure, rest)
  {
    var url := SchemeText(secure) + rest;
    if secure {
      assert SchemeText(true) <= url;
    } else {
      assert !(SchemeText(true) <= url) by { assert url[4] == ':'; }
      assert SchemeText(false) <= url;
    }
    assert url[|SchemeText(secure)|..] == rest;
  }

  /** After a host name the path is matched, with that host. */
  lemma MatchAfterHost(secure: bool, host: Host, rest: string)
    ensures MatchHost(secure, HostName(host) + rest) == MatchPath(secure, host, rest)
  {
    var s := HostName(host) + rest;
    if host == XCom {
      assert HostName(XCom) <= s;
    } else {
      assert !(HostName(XCom) <= s) by { assert s[0] == 't'; }
      assert HostName(TwitterCom) <= s;
    }
    assert s[|HostName(host)|..] == rest;
  }

  /** Any text of the pattern's form at the start of a URL is found, with the digit run
      extended as far as the digits go. */
  lemma MatchTweetUrlGreedy(m: TweetUrlMatch, tail: string)
    requires WellFormed(m)
    ensures MatchTweetUrl(MatchedText(m) + tail) == Some(m.(tweetId := m.tweetId + DigitRun(tail)))
  {
    var path := PathText(m.username, m.tweetId) + tail;
    assert MatchedText(m) + tail == SchemeText(m.secure) + (HostName(m.host) + path);
    MatchAfterScheme(m.secure, HostName(m.host) + path);
    MatchAfterHost(m.secure, m.host, path);
    MatchPathGreedy(m.secure, m.host, m.username, m.tweetId, tail);
  }

  /** The captures of a match are exactly those of the text the URL begins with. */
  lemma MatchTweetUrlComplete(url: string, m: TweetUrlMatch)
    requires WellFormed(m) && MatchesAt(url, m)
    ensures MatchTweetUrl(url) == Some(m)
  {
    var tail := url[|MatchedText(m)|..];
    assert url == MatchedText(m) + tail;
    MatchTweetUrlGreedy(m, tail);
    assert DigitRun(tail) == [];
    assert m.tweetId + [] == m.tweetId;
  }

  /** No match means no prefix of the URL has the pattern's form. */
  lemma MatchTweetUrlNone(url: string)
    requires MatchTweetUrl(url) == None
    ensures forall m :: WellFormed(m) ==> !(MatchedText(m) <= url)
  {
    forall m | WellFormed(m) && MatchedText(m) <= url
      ensures false
    {
      var tail := url[|MatchedText(m)|..];
      assert url == MatchedText(m) + tail;
      MatchTweetUrlGreedy(m, tail);
    }
  }

  /** The failures of `parseTweetUrl`, both ending the process with status 1. */
  datatype UrlError =
    | InvalidUrl    // `new URL(url)` throws
    | NotTweetUrl   // the URL does not match TWEET_URL_RE

  /** The value `parseTweetUrl` returns. */
  datatype TweetRef = TweetRef(username: string, tweetId: string)

  /** `parseTweetUrl(url)`. `isValidUrl` stands for the WHATWG URL parser, which
      is outside this model: it only says whether `new URL(url)` throws. */
  function ParseTweetUrl(url: string, isValidUrl: string -> bool): (r: Result<TweetRef, UrlError>)
    ensures r == Failure(InvalidUrl) <==> !isValidUrl(url)
    ensures r.Success? ==> exists m :: WellFormed(m) && MatchesAt(url, m) && r.value == TweetRef(m.username, m.tweetId)
  {
    if !isValidUrl(url) then Failure(InvalidUrl)
    else
      match MatchTweetUrl(url)
      case None => Failure(NotTweetUrl)
      case Some(m) => Success(TweetRef(m.username, m.tweetId))
  }

  /** A valid URL that begins with the pattern's text yields exactly its user name and tweet id. */
  lemma ParseTweetUrlSucceeds(url: string, isValidUrl: string -> bool, m: TweetUrlMatch)
    requires isValidUrl(url) && WellFormed(m) && MatchesAt(url, m)
    ensures ParseTweetUrl(url, isValidUrl) == Success(TweetRef(m.username, m.tweetId))
  {
    MatchTweetUrlComplete(url, m);
  }

  /** "Not a tweet URL" is reported only for valid URLs none of whose prefixes has the pattern's form. */
  lemma ParseTweetUrlRejects(url: string, isValidUrl: string -> bool)
    requires ParseTweetUrl(url, isValidUrl) == Failure(NotTweetUrl)
    ensures isValidUrl(url)
    ensures forall m :: WellFormed(m) ==> !(MatchedText(m) <= url)
  {
    MatchTweetUrlNone(url);
  }

  /** `parseTweetUrl` succeeds exactly when the URL parser accepts the string and some
      prefix of it has the pattern's form. */
  lemma ParseTweetUrlSuccessIff(url: string, isValidUrl: string -> bool)
    ensures ParseTweetUrl(url, isValidUrl).Success? <==>
      isValidUrl(url) && exists m :: WellFormed(m) && MatchedText(m) <= url
  {
    var r := ParseTweetUrl(url, isValidUrl);
    if r.Failure? && isValidUrl(url) {
      assert r == Failure(NotTweetUrl);
      ParseTweetUrlRejects(url, isValidUrl);
    }
  }
}
