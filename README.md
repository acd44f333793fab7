# Google image scraper: a verified model of its logic

The tool searches Google Images for a term, collects full-resolution image
URLs from the results page, downloads the images that fit a size window and
reports per-term totals. It comes in two copies: a flat one (`GoogleImageScraper.py`,
`utils.py`, `cli.py`) and a package one (`src/google_image_scraper/...`). This
project models the logic between the browser and the network:

- **The URL pipeline** (`Scraper`, `TextScan`, `Clicking`, `FlatScraper`):
  - the JavaScript text scan over script texts, meta tags and the whole markup, with its blocklists, `Set` de-duplication and stable longest-first sort;
  - the click fallback over per-container outcomes;
  - the merge, truncation and decoding in `find_image_urls`;
  - the `save_images` loops with their counters and `{key}-{index}` file names.
- **The string helpers** (`Helpers`): `is_valid_image_url`, `clean_search_key`, `decode_url`, `filter_thumbnail_urls` and `validate_resolution`.
- **The validators** (`Validation`): search terms, number ranges, resolutions, image formats, URL lists, `sanitize_filename` and the config-dict validator.
- **The two command-line front ends** (`Cli`, `CliMain`): the `WxH` parser, the headless flag, the per-term records, the term loop and the summary totals.
- **The configuration object** (`Config`) with its defaults and `__post_init__`.

The browser, the HTTP client and the image decoder are replaced by their outcomes:
- the page the text scan reads;
- one outcome per clickable container;
- one fetch result per URL;
- for the CLI, what the scraper returned or raised for each term.

The Python and JavaScript library behaviour the code relies on is written out as supporting modules:
- `Text`: `str.strip`, `str.split`, `int()`, `\s`;
- `Lists`: `dict.fromkeys`, `Set`, `Array.prototype.sort`, `s[:k]`;
- `Utf8`, `UrlCodec`: UTF-8, `unicode_escape`, `quote`/`unquote`;
- `UrlParse`: `urlparse`, as Python 3.12's `urlsplit` does it from 3.12.9 on, with the checks on the network location that raise `ValueError`: an unpaired bracket; `_check_bracketed_netloc` (no text before the `[` of the host after the last `@`, nothing but a `:port` after the `]`, and a host that is an IPv6 address or an IPvFuture form); and a non-ASCII host whose NFKC form holds a delimiter.

The two helper modules `utils.py` and `src/google_image_scraper/utils/helpers.py` are identical, so `Helpers` models both. The two `parse_resolution` functions and the two headless expressions are identical too: `Cli.ParseResolution` and `Cli.Headless` model both. The row for `Cli.Headless` cites `cli.py:218`; the package copy is `src/google_image_scraper/cli/main.py:200`.

Where the unit tests in `tests/test_utils.py` disagree with the code, the model follows the code:
- `filter_thumbnail_urls` drops `https://example.com/full-resolution.jpg`. The URL has 39 characters, and the code keeps only URLs longer than 50 (`utils.py:94`). The test expects it kept (`tests/test_utils.py:95-100`). See `Helpers.ShortUrlDropped`.
- `is_valid_image_url` never looks at the scheme, so `ftp://example.com/image.jpg` is valid (`utils.py:24-32`). The test expects it rejected (`tests/test_utils.py:43`). See `Helpers.FtpAccepted`.

Three plausible claims are false of the code. Each is shown by a lemma:
- **The returned list can hold duplicates.** Duplicates are removed before decoding, and `a%20b` and `a b` decode alike (`Scraper.DecodedMayRepeat`).
- **The JSON file need not hold the returned list.** It decodes the decoded URLs a second time (`Scraper.JsonMayDifferFromReturned`).
- **The text scan does not apply one blocklist.** Each scan filters differently. `TextScan.ExtractedShape` states the one property the three scans share.

## Model

| member | source | states |
|---|---|---|
| Scraper.GenerateSearchUrl | src/google_image_scraper/core/scraper.py:39-42 | the search URL starts with `https://www.google.com/search?q=` |
| Scraper.SearchUrlRoundTrip | src/google_image_scraper/core/scraper.py:41-42 | the `q` value of the URL is `quote(search_key)`, and unquoting it gives the search key back |
| Scraper.SearchUrlInjective | src/google_image_scraper/core/scraper.py:39-42 | different search keys give different search URLs |
| TextScan.FirstAlternative | src/google_image_scraper/core/scraper.py:172 | the alternation `(jpg\|jpeg\|png\|webp\|gif)` picks the first alternative that matches, and no earlier one matches |
| TextScan.RunEnd | src/google_image_scraper/core/scraper.py:172 | a `[^...]+` run stops at the first delimiter or at the end of the text |
| TextScan.LastExtensionDot | src/google_image_scraper/core/scraper.py:172 | the greedy run backtracks to the last dot followed by an extension, and no later dot qualifies |
| TextScan.MatchShape | src/google_image_scraper/core/scraper.py:172 | every match starts with `http://` or `https://` in any case, and contains no delimiter of its pattern |
| TextScan.AllMatchesShape | src/google_image_scraper/core/scraper.py:172 | every match of a global `match` has that shape |
| TextScan.FirstMatchShape | src/google_image_scraper/core/scraper.py:196 | the single match of the meta scan has that shape |
| TextScan.CollectScriptUrls | src/google_image_scraper/core/scraper.py:168-189 | the loop over the scripts gathers exactly the script scan |
| TextScan.KeepMatches | src/google_image_scraper/core/scraper.py:174-186 | the loop over the matches keeps exactly those that pass the blocklist, in order |
| TextScan.ScriptScanSnoc | src/google_image_scraper/core/scraper.py:169-188 | each script adds its own kept matches after those of the earlier scripts |
| TextScan.ScriptScanSkips | src/google_image_scraper/core/scraper.py:171 | a script that lacks `["` or `http` adds nothing |
| TextScan.ScriptScanShape | src/google_image_scraper/core/scraper.py:171-186 | every script-scan URL has an http(s) scheme and contains none of the nine blocked patterns |
| TextScan.CollectMetaUrls | src/google_image_scraper/core/scraper.py:192-201 | the loop over the meta tags gathers exactly the meta scan |
| TextScan.MetaScanShape | src/google_image_scraper/core/scraper.py:194-199 | the meta scan takes at most one URL per tag; each has an http(s) scheme and no `encrypted-tbn` |
| TextScan.MetaUrlShape | src/google_image_scraper/core/scraper.py:194-199 | one meta tag gives at most one URL, of that shape |
| TextScan.CollectPageUrls | src/google_image_scraper/core/scraper.py:204-215 | the loop over the document matches gathers exactly the page scan |
| TextScan.PageScanMembers | src/google_image_scraper/core/scraper.py:205-214 | a URL is in the page scan exactly when it is a match that is longer than 50 and free of `encrypted-tbn`, `logo` and `favicon` |
| TextScan.PageScanShape | src/google_image_scraper/core/scraper.py:204-214 | every page-scan URL has that shape |
| TextScan.ExtractUrlsFromPageData | src/google_image_scraper/core/scraper.py:163-221 | the whole script returns the de-duplicated, length-sorted collection of the three scans |
| TextScan.ExtractedMembers | src/google_image_scraper/core/scraper.py:218-219 | the result holds exactly the collected URLs |
| TextScan.ExtractedNoDup | src/google_image_scraper/core/scraper.py:218 | the result is duplicate-free |
| TextScan.ExtractedSorted | src/google_image_scraper/core/scraper.py:219 | the result is ordered by non-increasing JavaScript length |
| TextScan.ExtractedStable | src/google_image_scraper/core/scraper.py:218-219 | URLs of equal length keep their first-collected order |
| TextScan.ExtractedShape | src/google_image_scraper/core/scraper.py:172-219 | every result URL starts with http(s) and lacks `encrypted-tbn` |
| TextScan.CollectedShape | src/google_image_scraper/core/scraper.py:168-215 | each collected URL comes from one of the three scans and has that scan's shape |
| Clicking.FirstAccepted | src/google_image_scraper/core/scraper.py:253-263 | the selector loop takes the first source that contains `http`, lacks `encrypted-tbn` and is longer than 50 |
| Clicking.PickSource | src/google_image_scraper/core/scraper.py:253-263 | the selector loop with its `break` returns that first accepted source |
| Clicking.ContainerUrl | src/google_image_scraper/core/scraper.py:240-270 | one container adds at most one URL, and only an accepted one; a failed click adds none |
| Clicking.ExtractUrlsByClicking | src/google_image_scraper/core/scraper.py:233-272 | the container loop with its cap and `break` returns exactly the specified clicked URLs |
| Clicking.ClickFromTakes | src/google_image_scraper/core/scraper.py:236-238 | the loop collects the first candidates until it has `number_of_images` |
| Clicking.ClickedUrlsArePrefix | src/google_image_scraper/core/scraper.py:234-238 | the clicked URLs are the first `number_of_images` candidates of the attempted containers |
| Clicking.ClickedUrlsBounds | src/google_image_scraper/core/scraper.py:234-259 | at most `number_of_images` URLs; at most one per attempted container; `min(#containers, 2*number_of_images)` attempts; each URL accepted |
| Clicking.ClickedUrlsIgnoreExtra | src/google_image_scraper/core/scraper.py:234-236 | containers past `2*number_of_images` are never tried |
| Clicking.ClickFailedSkipped | src/google_image_scraper/core/scraper.py:269-270 | a container whose click raises is skipped |
| Clicking.CandidatesBound | src/google_image_scraper/core/scraper.py:240-270 | no more candidates than containers, all accepted |
| Scraper.FindImageUrls | src/google_image_scraper/core/scraper.py:126-140 | the method returns the specified list: scan, click fallback when short, merge, truncate, decode |
| Scraper.MergedKeepsPrimaryFirst | src/google_image_scraper/core/scraper.py:131-135 | when the fallback runs, the merge is the scan result followed by the new clicked URLs in order |
| Scraper.MergedMembers | src/google_image_scraper/core/scraper.py:131-135 | the merge is duplicate-free; it holds the scan URLs, plus the clicked ones only when the scan fell short |
| Scraper.FoundUrlsShape | src/google_image_scraper/core/scraper.py:139-140 | the result is `decode_url` of the first `number_of_images` merged URLs, in order, at most `number_of_images` long |
| Scraper.FoundUrlsWithoutClicking | src/google_image_scraper/core/scraper.py:131 | with enough scan URLs, the container outcomes make no difference |
| Scraper.DecodedMayRepeat | src/google_image_scraper/core/scraper.py:135-140 | two different merged URLs can decode to the same returned URL |
| Scraper.JsonImageUrls | src/google_image_scraper/core/scraper.py:65 | the JSON list is `decode_url` of each returned URL |
| Scraper.JsonMayDifferFromReturned | src/google_image_scraper/core/scraper.py:65 | for `%2541` the JSON list differs from the returned list |
| Scraper.DownloadImage | src/google_image_scraper/core/scraper.py:324-338 | a response comes back exactly when the status is 200; a timeout or another status gives none |
| Scraper.ImageName | src/google_image_scraper/core/scraper.py:350-351 | the file name is `{search_key}-{index}.{format}`, the stem being built at line 311 |
| Scraper.ImageNameInjective | src/google_image_scraper/core/scraper.py:350-351 | the index and the format can be read back from a file name |
| Scraper.SaveImages | src/google_image_scraper/core/scraper.py:294-322 | downloaded plus failed equals the number of URLs; downloaded equals the number of files written; the files are the specified ones |
| Scraper.SavedNamesExactly | src/google_image_scraper/core/scraper.py:296-314 | the file for index `i` is written exactly when that URL answers 200, decodes, lies in the window and saves |
| Scraper.SaveImagesBounds | src/google_image_scraper/core/scraper.py:322 | the count returned is at most the number of URLs, and no name is written twice |
| Scraper.NamesBelow | src/google_image_scraper/core/scraper.py:296-314 | every written name carries an input index |
| FlatScraper.ScrollAttempts | GoogleImageScraper.py:179 | `max(3, number_of_images // 10 + 1)`: 3 below 20 images, `n // 10 + 1` from 20 on |
| FlatScraper.CleanUrls | GoogleImageScraper.py:236-246 | one entry per URL, in order, each `decode_url` of it (the original where decoding raises) |
| FlatScraper.FindImageUrls | GoogleImageScraper.py:108-246 | the flat pipeline returns what the package pipeline returns |
| FlatScraper.CheckIfImageResolutionValidAgrees | GoogleImageScraper.py:323-333 | the flat size check is the helpers' inclusive window test |
| FlatScraper.ChooseSaveFormat | GoogleImageScraper.py:337-339 | the extension is `save_format` when it is jpg, png or jpeg, otherwise the image's lower-cased format |
| FlatScraper.FlatSavedNamesFormat | GoogleImageScraper.py:297-298 | with `save_format` one of jpg, png or jpeg, every file written ends in `.` and that format, whatever the images' own formats |
| FlatScraper.ImageNameEnds | GoogleImageScraper.py:340 | `{name}.{format}` ends in `.{format}` |
| FlatScraper.FlatSavedName | GoogleImageScraper.py:288-299 | one index writes at most one file |
| FlatScraper.SaveImages | GoogleImageScraper.py:287-299 | the loop with its `continue`s writes exactly the specified files |
| FlatScraper.FlatSavedNamesIndexed | GoogleImageScraper.py:297-298 | every name is `{prefix}-{index}.{format}` for an input index; none is written twice; no more files than URLs |
| FlatScraper.NoResponseNoFile | GoogleImageScraper.py:288-290 | a URL whose download gives `None` writes nothing |
| Helpers.IsValidImageUrl | src/google_image_scraper/utils/helpers.py:20-41 | a valid URL is a non-empty string that parses with a scheme and a network location |
| Helpers.SchemeNotChecked | src/google_image_scraper/utils/helpers.py:24-32 | any letter scheme is accepted with an ASCII host without brackets and an image path, whatever the library calls return |
| Helpers.RejectedHostInvalid | src/google_image_scraper/utils/helpers.py:23-41 | a host that a check of `urlsplit` rejects makes the URL invalid whatever its path: the `ValueError` is caught |
| Helpers.NfkcHostInvalid | src/google_image_scraper/utils/helpers.py:23-41 | `http://a\u2100b/x.jpg` is invalid when U+2100 normalises to `a/c`, although its path is an image path |
| Helpers.BracketHostInvalid | src/google_image_scraper/utils/helpers.py:23-41 | a URL whose bracketed host (with or without a `:port` after it) is not an IPv6 address or a valid IPvFuture form is invalid, e.g. `http://[zz]/a.jpg` |
| Helpers.TextBeforeBracketInvalid | src/google_image_scraper/utils/helpers.py:23-41 | a host with text before its `[` makes the URL invalid whatever the brackets hold, e.g. `http://a[::1]/x.jpg` |
| Helpers.MissingHostInvalid | src/google_image_scraper/utils/helpers.py:25-26 | `scheme:///path` has no network location and is invalid |
| Helpers.NoSchemeInvalid | src/google_image_scraper/utils/helpers.py:25-26 | text without a colon has no scheme and is invalid |
| Helpers.FtpAccepted | utils.py:24-32 | `ftp://example.com/image.jpg` is valid |
| Helpers.ReplaceForbidden | src/google_image_scraper/utils/helpers.py:54 | one `_` per forbidden character; the length is kept; whitespace stays where it was |
| Helpers.CleanSearchKey | src/google_image_scraper/utils/helpers.py:54-59 | the cleaned key contains no whitespace and no forbidden character |
| Helpers.CleanSearchKeyNoSpace | src/google_image_scraper/utils/helpers.py:54 | on a key without whitespace, each forbidden character becomes one `_`; runs are not collapsed |
| Helpers.CleanSearchKeyTwoWords | src/google_image_scraper/utils/helpers.py:56-58 | two words with any whitespace around and between them are joined by one `_` |
| Helpers.CleanSearchKeyIdempotent | src/google_image_scraper/utils/helpers.py:54-59 | cleaning a cleaned key changes nothing |
| Helpers.CleanSearchKeyExample | tests/test_utils.py:58 | `special<>chars` becomes `special__chars` |
| Helpers.DecodeUrlPlain | src/google_image_scraper/utils/helpers.py:73 | without `\` and `%`, the result is the UTF-8 bytes read as Latin-1 |
| Helpers.DecodeUrlIdentity | src/google_image_scraper/utils/helpers.py:73-76 | such a URL comes back unchanged exactly when it is ASCII |
| Helpers.DecodeUrlMojibake | src/google_image_scraper/utils/helpers.py:73 | `é` comes back as `Ã©` |
| Helpers.DecodeUrlMalformed | src/google_image_scraper/utils/helpers.py:71-78 | a `\x`, `\u` or `\U` escape without hex digits makes the codec raise, and the input is returned unchanged |
| Helpers.DecodeUrlTrailingBackslash | src/google_image_scraper/utils/helpers.py:71-78 | a trailing backslash makes the codec raise, and the input is returned unchanged |
| Helpers.DecodeUrlUnicodeEscape | src/google_image_scraper/utils/helpers.py:72-73 | `\uXXXX` becomes the character it names |
| Helpers.DecodeUrlEqualsSign | src/google_image_scraper/utils/helpers.py:72-73 | `=` becomes `=` |
| Helpers.DecodeUrlAscii | src/google_image_scraper/utils/helpers.py:73-76 | ASCII without `\`: unchanged without `%`, otherwise percent-decoded as UTF-8 |
| Helpers.DecodeUrlPercent | src/google_image_scraper/utils/helpers.py:74-75 | a well-formed escape of the UTF-8 bytes of a text decodes to that text |
| Helpers.DecodeUrlQuoted | src/google_image_scraper/utils/helpers.py:75 | `decode_url` inverts `quote` inside plain ASCII |
| Helpers.DecodeUrlSpace | tests/test_utils.py:70 | `%20` becomes a space |
| Helpers.DecodeUrlEAcute | tests/test_utils.py:72 | `%C3%A9` becomes `é` |
| Helpers.DecodeUrlNotIdempotent | src/google_image_scraper/utils/helpers.py:75 | `%2541` decodes to `%41`, which decodes to `A` |
| Helpers.FilterThumbnailUrls | src/google_image_scraper/utils/helpers.py:91-96 | the loop keeps exactly the URLs longer than 50 whose lower-cased form contains no pattern, in order |
| Helpers.FilterThumbnailMembers | src/google_image_scraper/utils/helpers.py:91-96 | a URL is kept exactly when it is an input that passes the test; the result is a subsequence of the input |
| Helpers.ShortUrlDropped | utils.py:94 | `https://example.com/full-resolution.jpg` is dropped |
| Helpers.ValidateResolutionInclusive | src/google_image_scraper/utils/helpers.py:113-114 | both ends of the window are accepted on both axes, and one step past either end is not |
| Validation.ValidateSearchTerm | validation.py:26-43 | an accepted term is the input with whitespace runs collapsed and trimmed, 1 to 200 long, free of dangerous characters |
| Validation.NormalizeSpacesWellSpaced | validation.py:30 | the normalised term is trimmed, with single plain spaces only |
| Validation.ValidateSearchTermIdempotent | validation.py:26-43 | validating an accepted term again returns it unchanged |
| Validation.InvalidCharsComeFromInput | validation.py:30-41 | a rejection for invalid characters means the input held `<`, `>`, `"`, `\|` or NUL; tab, newline and CR never cause it |
| Validation.InvalidCharsDangerous | validation.py:39-41 | that rejection means the normalised term holds a dangerous character |
| Validation.SearchTermTwoWords | validation.py:30-43 | two harmless words with any whitespace around them are accepted as `w1 w2` |
| Validation.AcceptedTerm | validation.py:26-43 | a normalised term of the right length without dangerous characters is accepted |
| Validation.ValidateNumberRange | validation.py:62-70 | accepted, unchanged, exactly when an integer (a bool included) within the bounds; otherwise the matching error |
| Validation.ParseResolutionText | validation.py:86-91 | a string parses exactly when it splits on `x` into two parts that `int()` reads (an optional sign and at most 4300 digits, with only the whitespace `int()` strips around them), giving those values |
| Validation.ResolutionTextSeparator | validation.py:86-91 | a U+001C to U+001F character anywhere in the string makes `int()` raise, so the string is refused |
| Validation.ResolutionTextTooManyDigits | validation.py:86-91 | a width of more than 4300 digits makes `int()` raise, so the string is refused |
| Validation.CheckResolutionPair | validation.py:93-106 | a pair is accepted exactly when it is a two-element tuple or list of integers in [0, 10000] |
| Validation.ValidateResolution | validation.py:86-106 | an accepted resolution has both components in [0, 10000], and a string one is its parse |
| Validation.ResolutionValue | validation.py:86-106 | the value returned: accepted exactly when `ValidateResolution` accepts; a string gives two ints, a tuple or list its own two components, whose integer values are the accepted pair |
| Validation.ResolutionTextOneX | validation.py:88 | an accepted string holds exactly one `x` |
| Validation.ValidateResolutionText | validation.py:86-106 | `"{w}x{h}"` within the bounds gives `(w, h)` |
| Validation.ValidateResolutionPair | validation.py:93-106 | `(w, h)` is accepted exactly when both are in [0, 10000], and comes back as it is |
| Validation.ValidateImageFormat | validation.py:166-178 | accepted exactly when the lower-cased, stripped text is a supported format, which is returned |
| Validation.ValidateImageFormatIdempotent | validation.py:166-178 | validating an accepted format again changes nothing |
| Validation.CheckUrlEntry | validation.py:203-221 | an entry passes exactly when it is a string that strips to nothing or to an http(s) URL with a host; errors carry the index |
| Validation.CheckStrippedUrl | validation.py:207-221 | a stripped entry is skipped when empty, kept when it parses to an http(s) URL with a host, and otherwise refused as an invalid URL at its index, a parse error included |
| Validation.CheckParsedUrl | validation.py:212-216 | a parsed URL passes exactly when its scheme is http or https and its network location is not empty; a refusal carries the index |
| Validation.ValidateUrlList | validation.py:195-223 | the loop with its early errors returns the specified result |
| Validation.ValidatedUrlListAccepts | validation.py:195-219 | accepted exactly when a list of at most `max_count` passing entries; longer lists give `TooManyUrls` |
| Validation.ValidatedUrlListValue | validation.py:201-223 | the result is the stripped non-empty entries in input order, each a clean http(s) URL |
| Validation.ValidatedUrlListFirstError | validation.py:202-219 | a rejected list reports the error of its first failing entry |
| Validation.RejectedHostRefused | validation.py:210-219 | a URL whose host a check of `urlsplit` rejects is refused at its index with the parser's message |
| Validation.TextBeforeBracketRefused | validation.py:210-219 | a URL whose host has text before its `[` is refused at its index with `Invalid IPv6 URL` |
| Validation.NfkcHostRefused | validation.py:210-219 | `http://a\u2100b/x.jpg` is refused and is no web URL when U+2100 normalises to `a/c` |
| Validation.SanitizeFilenameSafe | validation.py:237-260 | the result is non-empty, without forbidden or control characters, whitespace or `__`, does not begin or end with `_`, `.` or space, and is at most `max_length` long unless it is `unnamed` |
| Validation.CleanFilenameClean | validation.py:241-250 | the four substitutions leave only safe characters, no `__` and clean ends |
| Validation.CapFilenameSafe | validation.py:253-258 | truncation and the fallback keep a clean name safe and within the length |
| Validation.SanitizeFilenameKeepsSafe | validation.py:237-260 | a safe name within the length comes back unchanged |
| Validation.SanitizeFilenameIdempotent | validation.py:237-260 | with `max_length >= 7`, sanitising twice is sanitising once |
| Validation.ValidateFieldSpec | validation.py:283-331 | the check of each key: the two ranges; a resolution pair as `validate_resolution` returns it, components as given; the format and path validators; a positive number made float, an integer `float` cannot hold raising `OverflowError`; a bool |
| Validation.ResolutionKeepsComponents | validation.py:93-106 | an in-range pair given as a tuple or list is stored as that pair, a bool component staying a bool |
| Validation.TimeoutOverflowBoundary | validation.py:319-323 | the integer timeout 2^1024 - 2^970 raises `OverflowError`, and one less is stored as a float |
| Validation.ValidateKey | validation.py:283-323 | one block stores the validated value of a present key or raises its error |
| Validation.ValidateScrapingConfig | validation.py:280-333 | the method returns the specified result: the keys in order, the first failure raising |
| Validation.ValidatedConfigAccepts | validation.py:280-333 | accepted exactly when every recognised key present validates |
| Validation.ValidatedConfigValue | validation.py:280-333 | the output keys are the recognised keys present in the input; each value is its validator's result |
| Validation.ValidatedConfigFirstError | validation.py:280-333 | a rejection reports the error of the first failing key in source order |
| Validation.ValidatedConfigField | validation.py:280-333 | a failing present key rejects the dict; an accepted dict holds each present key's validated value |
| Validation.ValidatedConfigCounts | validation.py:283-292 | in an accepted dict, `number_of_images` is an integer in [1, 1000] and `max_missed` one in [1, 100], both kept as given |
| Validation.ValidatedConfigTimeout | validation.py:319-323 | in an accepted dict, the timeout is a positive number that `float` can hold, stored as a float |
| Validation.ValidatedConfigFlags | validation.py:326-331 | a non-bool `headless` or `keep_filenames` rejects the dict |
| Config.ScrapingConfig.Default | src/google_image_scraper/core/config.py:11-37 | the defaults: 10 images, 10 missed, (0,0)-(9999,9999), jpg, 5.0 s, 3 scrolls, 3000 ms, the two directories, the default pattern lists |
| Config.ScrapingConfig.constructor | src/google_image_scraper/core/config.py:8-37 | the given fields are kept; missing pattern lists get their defaults |
| Config.ScrapingConfig.PostInit | src/google_image_scraper/core/config.py:30-37 | a `None` pattern list becomes its default list; a given list and every other field are left untouched |
| Config.PatternsOrDefault | src/google_image_scraper/core/config.py:31-37 | a given list is kept, a missing one is replaced by the default |
| Cli.ParseResolution | cli.py:17-23 | a refused text gives the `Invalid resolution format: ... Use format: WIDTHxHEIGHT` message |
| Cli.ParseResolutionSpec | cli.py:19-21 | `(w, h)` exactly when the text is two integers of at most 4300 digits each, joined by its only `x` |
| Cli.ParseResolutionOneX | cli.py:20 | an accepted text holds exactly one `x` |
| Cli.ParseResolutionRoundTrip | cli.py:17-23 | printing a size as `WxH` and parsing it gives the size back, for components of at most 4300 digits |
| Cli.ParseResolutionSeparator | cli.py:17-23 | a U+001C to U+001F character anywhere in the text is refused with the format message, e.g. `800x600\x1f` |
| Cli.ParseResolutionTooManyDigits | cli.py:17-23 | a part of more than 4300 digits (leading zeros included) makes `int()` raise, so the text is refused with the format message |
| CliMain.ParseResolutionNoX | src/google_image_scraper/cli/main.py:21-24 | a text without `x` is refused |
| CliMain.ParseResolutionTwoX | src/google_image_scraper/cli/main.py:21-24 | a text with two or more `x` is refused |
| CliMain.ParseResolutionNotNumbers | src/google_image_scraper/cli/main.py:21-24 | two parts of which one is not an integer are refused |
| Cli.Headless | cli.py:218 | headless exactly when `--show-browser` is absent, whatever `--headless` says |
| Cli.ScrapeSingleTerm | cli.py:150-202 | success exactly when the search returned, and it was a dry run, or found nothing, or the save returned counts; a success reports the URL count, and the returned counts on a real run; a raised search or save gives the error record with that message, a `None` return the unpack message; a failure has zero counts and the error text |
| Cli.DryRunRecord | cli.py:159-169 | a dry run reports the URL count, zero downloads and failures, and success |
| Cli.FlatRunAlwaysFails | cli.py:171-202 | as written, a real run that found URLs ends in the error record `cannot unpack non-iterable NoneType object` |
| Cli.FlatRunHidesWrittenFiles | cli.py:177-188 | as written, such a run reports no download and no success even though the files were written |
| Cli.CountedRunRecord | cli.py:177-188 | with counts returned, a real run succeeds; downloaded is the number of files written, and downloaded plus failed is the URL count |
| Cli.ScrapeTerms | cli.py:236-239 | one record per term, in argument order |
| Cli.SumOfAppend | cli.py:246-249 | a total over two runs of records is the sum of their totals |
| Cli.SuccessfulTermsCount | cli.py:249 | `successful_terms` counts the successful records and lies between 0 and the number of terms |
| Cli.DryRunTotals | cli.py:159-169 | in a dry run the download and failure totals are 0, and a term succeeds exactly when its search returned |
| Cli.FlatRunTotals | cli.py:171-202 | as written, a real run has download and failure totals of 0; a term succeeds exactly when its search found no URL |
| CliMain.ScrapeSingleTerm | src/google_image_scraper/cli/main.py:150-184 | success exactly when the call returned; a dry run reports zero downloads; a full run reports `failed = urls_found - downloaded`; a failure has zero counts and the error text |
| CliMain.Scrape | src/google_image_scraper/core/scraper.py:365-386 | returns exactly when neither the search nor the directory creation raised, each exception re-raised unchanged; a return holds the URLs found and the number of files written, between 0 and the number of fetch outcomes (one per URL in a full run, as `CliMain.FullRunRecord` takes them) |
| CliMain.FullRunRecord | src/google_image_scraper/cli/main.py:164-173 | with the counts of `scrape`, downloaded is the number of files written, and failed lies between 0 and the URL count |
| CliMain.RaisedRunRecord | src/google_image_scraper/cli/main.py:162-184 | an exception re-raised by `scrape` reaches the record: the term fails with that message |
| CliMain.ScrapeTerms | src/google_image_scraper/cli/main.py:221-224 | one record per term, in argument order |
| CliMain.SumsBalance | src/google_image_scraper/cli/main.py:231-233 | when each record's counts add up to its URL count, so do the totals |
| CliMain.RunTotals | src/google_image_scraper/cli/main.py:231-234 | in a full run the failed total is the URL total less the downloaded total; in a dry run both are 0; successful terms lie between 0 and the number of terms |
| Lists.DedupAfterPrefix | src/google_image_scraper/core/scraper.py:135 | `dict.fromkeys` on a duplicate-free prefix plus a tail keeps the prefix and then the new tail elements |
| Lists.DedupFromOrder | src/google_image_scraper/core/scraper.py:218 | duplicate removal keeps first occurrences in their original order |
| Lists.SortDescSorted | src/google_image_scraper/core/scraper.py:219 | the comparator `b.length - a.length` sorts by non-increasing length |
| Lists.SortDescStable | src/google_image_scraper/core/scraper.py:219 | elements of equal length keep their relative order |
| Lists.SliceTo | src/google_image_scraper/core/scraper.py:139 | Python's `s[:k]` is the prefix of length `min(k, len)`, or `len + k` (at least 0) for a negative `k` |
| UrlCodec.UnquoteQuote | src/google_image_scraper/core/scraper.py:41 | `unquote(quote(s)) == s` |
| UrlCodec.QuoteAlphabet | src/google_image_scraper/core/scraper.py:41 | `quote` leaves only letters, digits, `_.-~/` and `%` |
| Utf8.DecodeEncode | src/google_image_scraper/utils/helpers.py:73 | decoding the UTF-8 encoding of a text gives the text back |

## Left out

- Playwright: launching, navigation, waits, scrolling, locators and key presses are not modelled; what they produce is an input (the page, the per-container outcomes).
- The fixed delays and timeouts (the 3000 ms click timeout, the 2000, 1000 and 500 ms waits) only bound how long the browser is given; a timeout appears as a failed outcome.
- httpx and PIL: a download is a fetch outcome (timeout, raised error, or a status with a body), and decoding, conversion and saving are fields of that outcome.
- Files and JSON: the JSON file and its timestamped name are not modelled beyond the list the JSON would hold (`Scraper.JsonImageUrls`); `os.makedirs` appears only as the exception it may raise in the package `save_images` (`CliMain.Scrape`).
- Validation.ValidateScrapingConfig: the source writes eight `if key in config_dict` blocks one after another; the model runs them as a loop over the same keys in the same order, and the bool loop as the source does.
- Validation.ValidateScrapingConfig: `validate_file_path` touches the filesystem, so it is a parameter; a Python dict's insertion order is not kept, because the result is a map.
- Validation.ValidateScrapingConfig: `float(timeout)` is a real number; its rounding of large integers and of floats, infinities and NaN are not modelled; its `OverflowError` is (`FloatOverflow`).
- Helpers.IsValidImageUrl: the `mimetypes.guess_type` table is a parameter.
- UrlParse.Parse: `unicodedata.normalize('NFKC', ...)` and `ipaddress.ip_address` are parameters (`UrlParse.Library`), since the Unicode tables and the address grammar are not modelled; so are they in every URL check that parses.
- UrlParse.Parse: follows Python 3.12.9 and later; the code runs on Python 3.8 and later. Versions before 3.11.4 do not check a bracketed host, and 3.11.4 to 3.12.8 check only the text between the first `[` and the next `]`, so they accept a host such as `a[::1]` that the model refuses.
- Helpers.DecodeUrl: `\N{...}` escapes are treated as making the codec raise, like a malformed escape, because the Unicode name table is not modelled; an escape naming a surrogate is treated the same way, since a Dafny `char` cannot hold it.
- Text.Lower: lower-cases ASCII letters only; Python's `str.lower` and JavaScript's `/i` flag also fold other letters, which no default pattern contains.
- Helpers.FilterThumbnailUrls: `url.lower()` is modelled with ASCII folding, so for a caller-supplied pattern with a non-ASCII letter (such as `é` against a URL holding `É`) the model can keep a URL the source drops.
- Text.ParseInt: accepts ASCII digits only; `int()` also accepts other Unicode decimal digits. It strips what `int()` strips (tab to carriage return, space, and the non-ASCII characters `str.isspace` admits), not all of `str.isspace`. Its 4300-digit limit is modelled at the default; a process that changes `sys.set_int_max_str_digits` is not.
- Logging and printing, including the summary table and the success-rate percentage (a float), are not modelled.
- `create_parser` (argparse) is not modelled; the parsed arguments are inputs.
- main.py runs the terms concurrently with `asyncio.gather`; that file is not part of this model.
- performance.py, `create_progress_callback`, the exception classes, logger_utils.py and the install and demo scripts are not part of this model.
- Integers are unbounded, as Python's are in arithmetic (`int()` of a string is limited, see `Text.ParseInt`); JavaScript string lengths are counted in UTF-16 code units (`Text.JsLength`).

## Findings

| source | as written | input that shows it | evidently intended | confidence | as-written member | corrected member |
|---|---|---|---|---|---|---|
| cli.py:177 | `downloaded, failed = await save_images(...)` unpacks the return value of the flat `save_images`, which has no `return` and so gives `None`; the `TypeError` lands in the error record | a real (not dry) run whose URL search returns at least one URL | `save_images` returns the downloaded and failed counts, and the record reports success with `downloaded + failed == urls_found` | not executed | Cli.FlatRunAlwaysFails | Cli.CountedRunRecord |
