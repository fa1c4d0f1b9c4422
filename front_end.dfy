/** The start of `main` (tweet-screenshot.js lines 115-118): parse the arguments, ask for
    the URL if none was given, check it, and choose the output file name. Everything
    `main` does after that drives the browser and is outside this model. */
module FrontEnd {
  import opened Wrappers
  import opened TweetUrl
  import opened CliArgs

  /** `${username}_${tweetId}.png`: the user name, an underscore, the id, the extension. */
  function DefaultFilename(t: TweetRef): (r: string)
    ensures |r| == |t.username| + |t.tweetId| + 5
    ensures r[..|t.username|] == t.username && r[|t.username|] == '_'
    ensures r[|t.username| + 1..|r| - 4] == t.tweetId && r[|r| - 4..] == ".png"
  {
    t.username + "_" + t.tweetId + ".png"
  }

  /** `output || default`: an empty string counts as no name, as in JavaScript.
      The chosen name is never empty. */
  function OutputFilename(output: Option<string>, t: TweetRef): (r: string)
    ensures r != ""
    ensures output.Some? && output.value != "" ==> r == output.value
    ensures output.None? || output.value == "" ==> r == DefaultFilename(t)
  {
    if output.Some? && output.value != "" then output.value else DefaultFilename(t)
  }

  /** Where the front end leaves the program. */
  datatype Invocation =
    | ShowUsage                                             // usage printed, exit status 0
    | ArgsFailure(argsError: ArgsError)                     // exit status 1
    | UrlFailure(url: string, urlError: UrlError)           // exit status 1
    | Capture(url: string, border: bool, filename: string)  // the browser session starts

  /** Lines 116-118 of `main`. `answer` is what the user would type at the
      "Enter tweet URL: " prompt; it is read only when no URL was given. */
  function Prepare(args: seq<string>, answer: string, isValidUrl: string -> bool): (r: Invocation)
    ensures r == ShowUsage <==> Parse(args).Help?
    ensures r.ArgsFailure? <==> Parse(args).Error?
    ensures r.ArgsFailure? ==> r.argsError == Parse(args).err
    ensures r.Capture? ==> isValidUrl(r.url) && r.filename != ""
    ensures r.Capture? ==>
      exists m :: WellFormed(m) && MatchesAt(r.url, m)
  {
    match Parse(args)
    case Help => ShowUsage
    case Error(e) => ArgsFailure(e)
    case Ok(border, output, url) =>
      var target := if url.Some? then url.value else answer;
      match ParseTweetUrl(target, isValidUrl)
      case Failure(e) => UrlFailure(target, e)
      case Success(t) => Capture(target, border, OutputFilename(output, t))
  }

  /** A tweet's default file name is a plain file name that identifies the tweet:
      no '/' in it, and no two tweets share it. */
  lemma DefaultFilenameIsPlain(t: TweetRef)
    requires '/' !in t.username && AllDigits(t.tweetId)
    ensures '/' !in DefaultFilename(t)
  {
  }

  /** `s` without its trailing digits. */
  function TrimDigits(s: string): string
    decreases |s|
  {
    if s != [] && IsDigit(s[|s| - 1]) then TrimDigits(s[..|s| - 1]) else s
  }

  lemma {:induction false} TrimDigitsAfterUnderscore(username: string, tweetId: string)
    requires AllDigits(tweetId)
    ensures TrimDigits(username + "_" + tweetId) == username + "_"
  {
    var s := username + "_" + tweetId;
    if tweetId == [] {
      assert s == username + "_";
    } else {
      var shorter := tweetId[..|tweetId| - 1];
      assert s[..|s| - 1] == username + "_" + shorter;
      TrimDigitsAfterUnderscore(username, shorter);
    }
  }

  lemma DefaultFilenameInjective(t1: TweetRef, t2: TweetRef)
    requires AllDigits(t1.tweetId) && AllDigits(t2.tweetId)
    requires DefaultFilename(t1) == DefaultFilename(t2)
    ensures t1 == t2
  {
    var s1 := t1.username + "_" + t1.tweetId;
    var s2 := t2.username + "_" + t2.tweetId;
    assert s1 == DefaultFilename(t1)[..|DefaultFilename(t1)| - 4];
    assert s2 == DefaultFilename(t2)[..|DefaultFilename(t2)| - 4];
    TrimDigitsAfterUnderscore(t1.username, t1.tweetId);
    TrimDigitsAfterUnderscore(t2.username, t2.tweetId);
    assert t1.username + "_" == t2.username + "_";
    assert t1.username == (t1.username + "_")[..|t1.username|];
    assert t2.username == (t2.username + "_")[..|t2.username|];
    assert t1.tweetId == s1[|t1.username| + 1..];
    assert t2.tweetId == s2[|t2.username| + 1..];
  }

  /** A name given with `-o`/`--output` is always the file name, whatever the URL. */
  lemma SuppliedOutputIsUsed(args: seq<string>, answer: string, isValidUrl: string -> bool)
    requires Parse(args).Ok? && Parse(args).output.Some?
    ensures Prepare(args, answer, isValidUrl).Capture? ==>
      Prepare(args, answer, isValidUrl).filename == Parse(args).output.value
  {
    ParseOutput(args);
  }

  /** Without `-o`, the file name is `<username>_<tweetId>.png` for the tweet the URL names. */
  lemma DefaultOutputIsTweetName(args: seq<string>, answer: string, isValidUrl: string -> bool)
    requires Parse(args).Ok? && Parse(args).output.None?
    ensures var r := Prepare(args, answer, isValidUrl);
      r.Capture? ==>
        exists m :: && WellFormed(m) && MatchesAt(r.url, m)
                    && r.filename == m.username + "_" + m.tweetId + ".png"
  {
  }

  /** The URL is the first positional argument; the prompt's answer is used only
      when there is none. */
  lemma TargetUrl(args: seq<string>, answer: string, isValidUrl: string -> bool)
    requires Parse(args).Ok?
    ensures var r := Prepare(args, answer, isValidUrl);
      r.UrlFailure? || r.Capture?
    ensures var r := Prepare(args, answer, isValidUrl);
      (forall k: nat :: !IsPositional(args, k)) ==> r.url == answer
    ensures var r := Prepare(args, answer, isValidUrl);
      (exists k: nat :: IsPositional(args, k)) ==>
        exists k: nat :: && IsPositional(args, k) && r.url == args[k]
                         && forall j: nat :: j < k ==> !IsPositional(args, j)
  {
    ParseUrl(args);
  }

  /** After a normal scan the pattern alone decides: the browser session starts exactly
      when the URL passes the URL check and begins with the pattern's text, whether or not
      `-o` was given; otherwise `parseTweetUrl`'s error ends the program. The border is
      the one the scan chose: off exactly when `--no-border` was scanned. */
  lemma UrlDecidesCapture(args: seq<string>, answer: string, isValidUrl: string -> bool)
    requires Parse(args).Ok?
    ensures var r := Prepare(args, answer, isValidUrl);
      r.Capture? <==> isValidUrl(r.url) && exists m :: WellFormed(m) && MatchedText(m) <= r.url
    ensures var r := Prepare(args, answer, isValidUrl);
      r.UrlFailure? ==> ParseTweetUrl(r.url, isValidUrl) == Failure(r.urlError)
    ensures var r := Prepare(args, answer, isValidUrl);
      r.Capture? ==> (r.border <==> forall k: nat :: Scanned(args, k) ==> args[k] != NoBorderFlag)
  {
    var r := Prepare(args, answer, isValidUrl);
    var target := if Parse(args).url.Some? then Parse(args).url.value else answer;
    assert r.UrlFailure? || r.Capture?;
    assert r.url == target;
    ParseTweetUrlSuccessIff(target, isValidUrl);
    ParseBorder(args);
  }

  /** With or without `-o`, a URL none of whose prefixes has the pattern's form ends
      the program with an error and no file is written. */
  lemma NoCaptureWithoutTweetUrl(args: seq<string>, answer: string, isValidUrl: string -> bool)
    requires Parse(args).Ok?
    ensures var r := Prepare(args, answer, isValidUrl);
      (forall m :: WellFormed(m) ==> !(MatchedText(m) <= r.url)) ==> r.UrlFailure?
  {
    UrlDecidesCapture(args, answer, isValidUrl);
    TargetUrl(args, answer, isValidUrl);
  }

  /** A lone tweet URL as the only argument: border on, file named after the tweet. */
  lemma BareTweetUrl(url: string, answer: string, isValidUrl: string -> bool, m: TweetUrlMatch)
    requires isValidUrl(url) && WellFormed(m) && MatchesAt(url, m)
    ensures Prepare([url], answer, isValidUrl) == Capture(url, true, m.username + "_" + m.tweetId + ".png")
  {
    // A tweet URL begins with 'h', every flag with '-', so the lone argument is positional.
    assert url[0] == 'h' by { assert url[0] == MatchedText(m)[0] == SchemeText(m.secure)[0]; }
    assert !IsHelpFlag(url) && url != NoBorderFlag && !IsOutputFlag(url);
    assert Parse([url]) == Ok(true, None, Some(url)) by {
      assert Initial.positional + [url] == [url];
      assert Scan([url], 1, ScanState(true, None, [url])) == Ok(true, None, Some(url));
    }
    assert ParseTweetUrl(url, isValidUrl) == Success(TweetRef(m.username, m.tweetId)) by {
      ParseTweetUrlSucceeds(url, isValidUrl, m);
    }
  }
}
