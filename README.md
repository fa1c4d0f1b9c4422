# tweet-screenshot: the command-line front end, in Dafny

`tweet-screenshot` is a Node.js command that screenshots a tweet on x.com or twitter.com.
This project models the part of `tweet-screenshot.js` that runs before a browser is
started:

- `parseArgs`: the left-to-right scan of the command line. It handles `-h`/`--help`
  (usage text, exit status 0), `--no-border`, and `-o`/`--output <file>` (exit status 1
  when the file name is missing or empty). Every other argument is positional, and the
  first positional is the URL.
- `parseTweetUrl` with `TWEET_URL_RE`: the URL must be accepted by the URL parser. It
  must also begin with `http(s)://`, then `x.com` or `twitter.com`, then `/<user>/status/<digits>`.
- the file-name choice in `main`: the `-o` value, or `<username>_<tweetId>.png`.

Modules:

- `Wrappers` (`wrappers.dfy`): `Option` and `Result`.
- `TweetUrl` (`tweet_url.dfy`): the pattern as an explicit prefix matcher, `MatchTweetUrl`.
  `MatchedText(m)` is an independent description of the text a match with captures `m`
  consumes. Soundness is stated in the `ensures` clauses. Completeness, including the
  greedy digit run, is proved as lemmas. `ParseTweetUrl` adds the URL-parser check,
  which is taken as a parameter `isValidUrl`.
- `CliArgs` (`cli_args.dfy`): `ParseArgs` is a method that renders the source's `for`
  loop as a `while` loop, keeping the extra `i` step of `args[++i]` after `-o`. It is proved equal to the recursive scan `Parse`. A
  position-by-position description says which argument the scan steps over
  (`IsOperand`), where it stops (`StopsAt`), and which arguments are positional. The
  lemmas `ParseOutcome`, `ParseBorder`, `ParseOutput` and `ParseUrl` tie `Parse` to it.
- `FrontEnd` (`front_end.dfy`): `Prepare` composes the three parts as lines 116-118 of
  `main` do. `answer` stands for the text typed at the "Enter tweet URL: " prompt.

## Model

| member | source | states |
|---|---|---|
| `CliArgs.ParseArgs` | tweet-screenshot.js:46-81 | The loop returns exactly what the scan `Parse` describes. Its invariant says the rest of the scan from `i`, in the current state, gives the final outcome. |
| `CliArgs.ParseOutcome` | tweet-screenshot.js:50-62 | The scan ends early exactly at the first scanned argument that is `-h`/`--help`, or an output flag with no following argument or an empty one. The help flag gives `Help`; the output flag gives the missing-file error. With no such argument the scan returns normally. |
| `CliArgs.HelpIsFinal` | tweet-screenshot.js:52-54 | Once a prefix of the arguments gives `Help`, any arguments appended after it still give `Help`. |
| `CliArgs.ParseBorder` | tweet-screenshot.js:47-56 | The border starts on. It is off exactly when some scanned argument (not the file name of an output flag) is `--no-border`. |
| `CliArgs.ParseOutput` | tweet-screenshot.js:57-62 | The output is absent exactly when no scanned argument is an output flag. Otherwise it is the non-empty argument after the last such flag. That argument is never scanned itself, so it is not taken as a flag or a positional. |
| `CliArgs.OutputNamedLikeHelpFlag` | tweet-screenshot.js:57-58 | Examples: `-o -h` sets the output to `-h` and asks for the URL. `--output --no-border <url>` keeps the border on. |
| `CliArgs.ParseUrl` | tweet-screenshot.js:68-78 | The URL is the first positional argument. It is absent, and so must be asked for, exactly when there is no positional argument. |
| `TweetUrl.UpToSlash` | tweet-screenshot.js:6 | The user-name capture `[^/]+` is the longest prefix without '/'. It ends at a '/' or at the end. |
| `TweetUrl.DigitRun` | tweet-screenshot.js:6 | The tweet-id capture `\d+` is the longest prefix of ASCII digits. The next character is not a digit. |
| `TweetUrl.MatchTweetUrl` | tweet-screenshot.js:6 | On success the captures are well formed: a non-empty user name with no '/' and a non-empty all-digit id. The URL also begins with the matched text `http(s)://host/user/status/id`, and the character after that text is not a digit. |
| `TweetUrl.MatchTweetUrlGreedy` | tweet-screenshot.js:6 | Any URL that begins with the text of well-formed captures is matched with the same scheme, host and user. Its id is extended by every digit that follows. |
| `TweetUrl.MatchTweetUrlComplete` | tweet-screenshot.js:6 | If the URL begins with the text of well-formed captures and no digit follows that text, the match gives exactly those captures. |
| `TweetUrl.MatchTweetUrlNone` | tweet-screenshot.js:37-41 | No match means that no prefix of the URL has the pattern's form. |
| `TweetUrl.ParseTweetUrl` | tweet-screenshot.js:28-44 | `InvalidUrl` is reported exactly when the URL parser rejects the string. On success the user name and id are the captures of a maximal match at the start of the URL. |
| `TweetUrl.ParseTweetUrlSucceeds` | tweet-screenshot.js:37-43 | A valid URL that begins with the pattern's text yields exactly that user name and tweet id. |
| `TweetUrl.ParseTweetUrlRejects` | tweet-screenshot.js:37-41 | "Not a tweet URL" is reported only for a string the URL parser accepts and none of whose prefixes has the pattern's form. |
| `TweetUrl.ParseTweetUrlSuccessIff` | tweet-screenshot.js:28-44 | `parseTweetUrl` succeeds exactly when the URL parser accepts the string and some prefix of it has the pattern's form. |
| `FrontEnd.DefaultFilename` | tweet-screenshot.js:118 | The default name is the user name, then `_`, then the tweet id, then `.png`, and nothing else. |
| `FrontEnd.OutputFilename` | tweet-screenshot.js:118 | `output \|\| default`: a non-empty `-o` value is used as given. A missing or empty one falls back to the default name. The chosen name is never empty. |
| `FrontEnd.Prepare` | tweet-screenshot.js:115-118 | The usage text is shown exactly when the scan gives `Help`. An argument error ends the program exactly when the scan reports it, with the same error. A capture happens only for a string the URL parser accepts and that begins with a maximal match of the pattern, and its file name is never empty. |
| `FrontEnd.UrlDecidesCapture` | tweet-screenshot.js:115-118 | After a normal scan, with or without `-o`, the capture starts exactly when the URL passes the URL check and some prefix of it has the pattern's form. Otherwise the program ends with `parseTweetUrl`'s own error. The border of the capture is off exactly when `--no-border` was scanned. |
| `FrontEnd.NoCaptureWithoutTweetUrl` | tweet-screenshot.js:116-117 | With or without `-o`, a URL none of whose prefixes has the pattern's form ends in a URL failure, so no file is written. |
| `FrontEnd.SuppliedOutputIsUsed` | tweet-screenshot.js:116-118 | When `-o`/`--output` gave a name, that name is the file name, whatever the URL. |
| `FrontEnd.DefaultOutputIsTweetName` | tweet-screenshot.js:116-118 | Without `-o`, the file name is `<username>_<tweetId>.png`, built from the captures of a maximal match at the start of the URL. |
| `FrontEnd.TargetUrl` | tweet-screenshot.js:68-78 | After a normal scan, the URL checked is the first positional argument. The prompt's answer is used only when there is no positional argument. |
| `FrontEnd.BareTweetUrl` | tweet-screenshot.js:22 | A single tweet URL as the only argument (it starts with 'h', so it is never taken for a flag) gives a capture of that URL, with the border on and the file named `<username>_<tweetId>.png`. The usage example `https://x.com/elonmusk/status/1234567890` is an instance, giving `elonmusk_1234567890.png`. |
| `FrontEnd.DefaultFilenameIsPlain` | tweet-screenshot.js:118 | The default file name of a matched tweet contains no '/'. |
| `FrontEnd.DefaultFilenameInjective` | tweet-screenshot.js:118 | Two tweets with all-digit ids have the same default file name only when the user names and the ids are equal. |

## Left out

- The browser session (tweet-screenshot.js:120-159) is not modelled. This covers launch, viewport, user agent, navigation, waiting for the tweet element, the border style, the screenshot and closing the browser. It is all foreign browser-automation calls; `Capture` marks where it would begin.
- `dismissModals` (tweet-screenshot.js:83-113) is left out. It is a best-effort sequence of waits and clicks on an external page.
- The console prompt (tweet-screenshot.js:70-78) is not modelled as I/O. Its answer is the parameter `answer` of `FrontEnd.Prepare`.
- The WHATWG URL parser behind `new URL(url)` (tweet-screenshot.js:31) is outside this model. It is the parameter `isValidUrl: string -> bool`.
- The usage text, the error messages and `process.exit` are not modelled. Outcomes carry error kinds instead: `Help` and `ShowUsage` stand for exit status 0, and the `Error`, `ArgsFailure` and `UrlFailure` outcomes stand for exit status 1.
- Strings are sequences of Dafny characters (Unicode scalar values), not UTF-16 code units. The pattern tests only ASCII characters and '/', so the captures are the same.
- `FrontEnd.BareTweetUrl`: the literal `elonmusk` example from the usage text is covered only as an instance of this general lemma. It has no lemma of its own.
- Only the tweet variant in `tweet-screenshot.js` is modelled; no other page kind is screenshotted by that file.
