# Video downloader core, modelled in Dafny

This project models the core of a small desktop video downloader. It has two parts:

- a `Downloader` object that probes a URL with a media-extraction library and downloads the video, its audio or its captions;
- a two-button window that drives it.

The model covers these pieces:

- the object's fields and its URL probe `check_url`;
- the caption language-code matcher;
- the retry loop with rate-limit classification, `Retry-After` parsing and exponential backoff;
- the option and branch selection of the three download operations;
- the decision logic of the window's "Check URL" and "Download" handlers.

Modules, one concept each:

- `Common` (common.dfy): `Option`, and the Python string operations the source uses (`startswith`, `in`, `lower`, `strip`, `replace`), plus sequence helpers.
- `LangCodes` (langcodes.dfy): `_find_matching_lang_codes`. The method keeps the source's nested loops with the early `continue`. `Matches` is the specification it is proved against, and the matcher's properties are proved about that function.
- `Retry` (retry.dfy): `_download_with_retries`. Each download call's outcome comes from a script `remote`, where `remote(i)` is the outcome of call i+1. A sleep is recorded, not performed. The method keeps the source's `while` loop and is proved equal to the run function `Retry`. The lemmas state the retry policy.
- `Downloader` (downloader.dfy): the `Downloader` class. Its fields are updated in place by `CheckUrl`, which takes the library's `extract_info` result as a parameter. Its three operations return a `Job`: the options handed to the library, the retried run, and the language given to speech recognition.
- `Gui` (gui.py's handlers, gui.dfy): it holds an `App` class around one `Downloader`, with these fields:
  - the two buttons' enabled state;
  - the state of the "Transcription" radio button;
  - the file name field;
  - the validation label;
  - the last dialog;
  - a ghost log of what the handlers did, in order.

  What the text fields hold at the moment of a click is a parameter.

In the matcher, an exact hit for a preferred code ends that code's processing (the `continue` at downloader.py:46). The prefix scan is then skipped, so regional variants of that code are not added for that preference: `["pt", "en"]` over `[pt, pt-BR, en]` gives `["pt", "en"]`. The skip applies only while the exact code is not yet matched: a repeated `pt`, or a shorter preference such as `p`, reaches the scan and adds `pt-BR`. `LangCodes.MatchExampleExactHit` and `LangCodes.MatchExampleRepeated` prove these two results, and `LangCodes.MatchExampleRegional` proves `["pt-BR", "en"]` for `[en, pt-BR, fr]`.

A further behaviour, modelled as written: `download` falls back to the downloader's title for an empty file name before it re-validates the URL (gui.py:107-109). The fallback therefore uses the title of the URL validated last, and is empty if none was. `Gui.App.DownloadClicked` says exactly this: its file name is `ChooseFilename(Strip(filenameText), old(downloader.title))`.

## Model

| member | source | states |
|---|---|---|
| LangCodes.FindMatchingLangCodes | downloader.py:33-51 | the nested loops with `continue` compute exactly `Matches(available, preferred)` |
| LangCodes.MatchesSnoc | downloader.py:42-50 | one more preferred code appends exactly its contribution. An exact, unmatched code is appended alone and its prefix scan is skipped. Otherwise every not-yet-matched code starting with it is appended, in iteration order |
| LangCodes.ScanIsFilter | downloader.py:48-50 | over distinct codes the progressive prefix scan appends exactly the not-yet-matched codes starting with the short code, in order |
| LangCodes.MatchesNoDup | downloader.py:40-51 | the matches never repeat a code |
| LangCodes.MatchesSound | downloader.py:44-50 | every match is an available code that starts with (or equals) some preferred code |
| LangCodes.MatchesGrow | downloader.py:40-51 | the matches for earlier preferences stay, unchanged and in place, in front of those for later ones |
| LangCodes.MatchesComplete | downloader.py:44-50 | an available exact code is always matched; without an exact code every available code starting with the preference is matched |
| LangCodes.MatchExampleRegional | downloader.py:47-50 | `["pt","en"]` over `[en, pt-BR, fr]` gives `["pt-BR","en"]` |
| LangCodes.MatchExampleExactHit | downloader.py:44-46 | `["pt","en"]` over `[pt, pt-BR, en]` gives `["pt","en"]`: the exact hit skips the prefix scan |
| LangCodes.MatchExampleRepeated | downloader.py:44-50 | `["pt","pt"]` over `[pt, pt-BR]` gives `["pt","pt-BR"]`: the second `pt` finds its exact code already matched and scans |
| LangCodes.MatchExampleNone | downloader.py:40-51 | `["de"]` over `[en, fr]` gives nothing |
| Retry.DownloadWithRetries | downloader.py:54-87 | the `while` loop computes exactly the run `Retry(remote, max_attempts, base_wait, max_wait)`: the result, the number of calls and the sleeps |
| Retry.RateLimitMarkers | downloader.py:73 | "429" or "Too Many Requests" anywhere in the error text marks a rate limit |
| Retry.RateLimitPhraseAnyCase | downloader.py:73 | "rate limit", in any letter case, anywhere in the text marks a rate limit |
| Retry.RetryAfterFirstMatch | downloader.py:74-77 | the extracted value is the group of the first position where `Retry-After:\s*(\d+)` matches case-insensitively; there is none only when it matches nowhere |
| Retry.RetryAfterLeading | downloader.py:74-76 | a text opening with `Retry-After: N` yields exactly N |
| Retry.BackoffBounds | downloader.py:85 | `min(base_wait * 2^(attempt-1), max_wait)` is at most `max_wait` and non-decreasing in the attempt for `base_wait >= 0` |
| Retry.RetryAfterDirective | downloader.py:74-76 | a `Retry-After: N` directive after any text in which the pattern matches nowhere, such as the start of a 429 error message, yields exactly N |
| Retry.WaitHonoursRetryAfter | downloader.py:74-86 | with a `Retry-After: N` directive that is the first match in the text, wherever it stands, the sleep is exactly N, neither capped nor jittered |
| Retry.RetryBounds | downloader.py:65-70 | at most `max_attempts` calls and one sleep fewer than calls; `max_attempts <= 0` returns normally with no call |
| Retry.RetryRetriesOnlyRateLimits | downloader.py:72-87 | every call but the last got a rate-limit error and was followed by the sleep computed for its attempt number |
| Retry.RetryFinalOutcome | downloader.py:66-80 | the run returns iff its last call succeeded; otherwise it re-raises that call's error text unchanged, which is not a rate limit or came on the last attempt |
| Retry.RetrySucceedsOnCall | downloader.py:65-70 | success on call k after k-1 rate-limit errors returns after exactly k calls and k-1 sleeps |
| Retry.RetryFailsFast | downloader.py:79-80 | an error that is not a rate limit is re-raised on the first call with no sleep |
| Retry.RetryExhausted | downloader.py:79-80 | `max_attempts` rate-limit errors in a row end by re-raising the last one unchanged, with no sleep after it |
| Retry.RetryBackoffNonDecreasing | downloader.py:84-87 | the backoff terms of one run, before jitter is added, are at most `max_wait` and never decrease |
| Downloader.Sanitize | downloader.py:106 | the title keeps its length, has no `/` or `\`, and only those characters are replaced, each by `_` |
| Downloader.KeyUnion | downloader.py:110 | `langs` is duplicate-free and holds exactly the keys of the subtitles and of the automatic captions |
| Downloader.ProbedValid | downloader.py:105-111 | every probe keeps the metadata invariant (`langs` is the key union, `has_cc` iff it is non-empty, the title has no separator) |
| Downloader.ProbedFacts | downloader.py:95-116 | a failed probe changes nothing; a successful one sets the sanitised title ("Unknown Title" when absent), the caption keys, `langs` as their union and `has_cc` iff some key exists |
| Downloader.Downloader.constructor | downloader.py:20-30 | the three arguments are stored and the metadata starts empty with `has_cc` false |
| Downloader.Downloader.CheckUrl | downloader.py:90-116 | the result is true iff the URL starts with "http://" or "https://" (case-sensitive) and extraction succeeds; the fields change as `Probed` says; no extraction is attempted without a scheme |
| Downloader.Downloader.DownloadVideo | downloader.py:119-131 | the video options on `folder_path`/`filename`, downloaded through the retry loop with 6, 2 and 300 |
| Downloader.Downloader.DownloadAudio | downloader.py:134-150 | the audio options on `folder_path`/`filename`, downloaded through the retry loop with 6, 2 and 300 |
| Downloader.Downloader.TranscribeAudio | downloader.py:153-182 | the branch, options and recogniser language are exactly `TranscriptionJob` of the current metadata |
| Downloader.TranscriptionPaths | downloader.py:160-182 | captions iff `has_cc` and not excluded; then the selected codes are requested, and each write flag is set iff some selected code is a key of that dictionary. Otherwise the audio is downloaded. Recognition runs iff that download returned, in 'pt' when the exact code 'pt' is available and in 'en' otherwise. The job carries the downloader's URL |
| Downloader.SelectedCodesFacts | downloader.py:161-163 | the selected codes are available codes, non-empty when captions exist, and all of `langs` when the matcher finds nothing |
| Downloader.SelectedCodesPortugueseFirst | downloader.py:161-163 | with an exact 'pt' available, 'pt' is the first code requested |
| Downloader.CaptionFlagsCover | downloader.py:163-169 | on the caption path at least one of `writesubtitles` and `writeautomaticsub` is set |
| Common.StripIsTrimmed | gui.py:101-103 | the stripped text starts and ends with a non-space and is empty iff the field is all white space |
| Gui.DisplayTitle | gui.py:74 | the shown title is at most 50 characters: unchanged up to 50, else its first 47 followed by "..." |
| Gui.ChooseFilename | gui.py:107 | the file name is the entered text when that is not empty and the title otherwise, so it is empty only when both are |
| Gui.ModeOperations | gui.py:115-120 | "video" and "audio" run their download; "transcription" transcribes with captions allowed; "audio_transcription" transcribes with captions excluded |
| Gui.AudioTranscriptionUsesSpeech | gui.py:119-120 | "audio_transcription" always takes the speech path, recognising only after the audio download returned |
| Gui.TranscriptionUsesCaptionsWhenPresent | gui.py:119-120 | "transcription" fetches captions exactly when the video has some |
| Gui.PerformRetriesAndReports | gui.py:114-123 | every mode downloads the given URL through the retry loop, and the completion box is shown iff that run returned, the error box otherwise |
| Gui.App.constructor | gui.py:10 | the window starts with a downloader built with no arguments (empty URL, folder path and file name, empty metadata, no extraction made), all buttons enabled, an empty label and no dialog |
| Gui.App.SetButtons | gui.py:66-67 | both buttons take the given state; nothing else visible changes |
| Gui.App.CheckUrlClicked | gui.py:64-82 | the buttons are disabled during the probe of the stripped URL and re-enabled after it. On success the file name field gets the title, the label the shortened title and duration, and "Transcription" is enabled iff `has_cc`. On failure only the label changes. The probe calls `extract_info` on the URL exactly when it has a scheme |
| Gui.App.RunMode | gui.py:115-120 | the dispatch runs exactly the job `Perform` gives for the mode |
| Gui.App.Launch | gui.py:111-126 | buttons disabled, the mode's job run, its outcome shown, buttons re-enabled whether or not it raised |
| Gui.App.ReadFields | gui.py:101-107 | the stripped fields go into the downloader, an empty file name falling back to its title; no extraction is made |
| Gui.App.Revalidate | gui.py:109-126 | the URL held is probed again. A failure shows its message and leaves the buttons as they were; a success launches exactly the mode's job on the refreshed metadata. `extract_info` is called on the URL exactly when it has a scheme |
| Gui.App.DownloadClicked | gui.py:99-126 | the URL is re-validated first. A failure shows its message and leaves the buttons and the operations untouched. Otherwise exactly the mode's job runs on the refreshed metadata, between disabling and re-enabling both buttons. One extraction is made, exactly when the URL has a scheme |

## Left out

- The media-extraction library and the speech recogniser are outside the model. `extract_info` is a parameter (`None` when it raises) and each `ydl.download` outcome comes from the script `remote`. Recognition is only recorded by the language it would receive, and a failure inside it is not modelled.
- `time.sleep` and `random.uniform` are not called. A sleep is recorded in the run's trace. Its jitter is abstract: `Jittered(s)` lasts `s + u` for some `u` in [0, 1], and no floating-point value is computed. The bounds the model proves on backoff sleeps are on the backoff term `s` before jitter; with `s` equal to `max_wait` the real sleep can reach `max_wait + 1`, because the float addition `wait + random.uniform(0, 1.0)` at downloader.py:86 can round up (300 plus the largest double below 1 is 301.0).
- Writing the transcript file, `os.path.join` (the output is kept as a folder/name pair) and `os.makedirs` are filesystem I/O. A failing `os.makedirs` (gui.py:106), for instance on the empty folder path a cancelled folder browser leaves (gui.py:91-93), raises out of `download` after the fields were read and before the URL is re-validated: no dialog is shown and the buttons are unchanged. `Gui.App.DownloadClicked` assumes the folder can be created.
- The dialogs' message texts are outside the model. The three probe messages are the cases of `CheckMessage`.
- Widget construction, layout, the folder browser and the event loop are outside the model.
- The format selectors, post-processors and other fixed option keys have their meaning inside the library. Only the options whose values are decided here are modelled: output, the two write flags and the language list.
- Caption dictionaries are outside the model except for their keys. `langs` is a Python set whose iteration order is unspecified, so the model fixes one order: first occurrence in the subtitle keys followed by the automatic-caption keys.
- Downloader.Downloader.CheckUrl: an `extract_info` result holds a string or no title, an integer or no duration, and dictionaries or no caption entries. Other values are outside the model:
  - a duration that is `None` or a float is stored as it is, and the check succeeds;
  - a title that is present but `None` (or not a string) raises at downloader.py:106, after `title` was assigned;
  - subtitles or automatic captions that are present but `None` raise at downloader.py:110, after `title`, `duration`, `subs` and `autos` were assigned.
  In the last two cases `check_url` returns failure at downloader.py:113-114 with those fields already changed.
- Retry.IsRateLimit: lower-cases ASCII letters only. This gives the same verdict as Python's `str.lower` for the phrase "rate limit", because no other character lowers into one of its letters except U+0130, which lowers to two characters and cannot form the phrase.
- Retry.RetryAfter: `int(m.group(1))` at downloader.py:76 is taken never to fail. Python versions that limit integer-string conversion (by default to 4300 digits) raise `ValueError` there for a longer digit run. That error comes before the decision at downloader.py:79, so it replaces the original error even when the call would not be retried. The model's `DigitsValue` has no such limit.
- Retry.RetryAfter: `\d` is the ASCII digits only, so a directive written in other Unicode decimal digits is not recognised.
- `Retry.RetryAfter` treats `\s` as Python's full white-space set. Case-insensitive matching of "Retry-After:" is ASCII folding, which is exact since none of its letters has a non-ASCII case variant in Python's matcher.
- Retry.DownloadWithRetries: `time.sleep` is taken never to raise, so the model records the sleep and goes on to the next attempt. In the source, a `Retry-After` wait too large for the platform's clock (about 9.2e9 seconds or more) raises `OverflowError` at downloader.py:87. A negative `base_wait` gives a negative jittered wait, which raises `ValueError` there. Either error propagates out of `_download_with_retries`, since it is raised in the `except` clause and not in the `try` it belongs to.
- Retry.WaitHonoursRetryAfter: the sleep of exactly N seconds it states is the one recorded; for an N too large for `time.sleep` the source raises instead of sleeping.
- Exceptions that are not `Exception` subclasses, such as a keyboard interrupt, are outside the model. The retry loop would not catch them.
