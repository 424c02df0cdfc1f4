# orgtools link and transcript tools, modelled in Dafny

This project models the text-processing core of the orgtools toolkit:

- **Link engine** (`zktools/linkdoc.py`). A reading list of URLs goes through these steps:
  - it is split into lines, optionally sorted with duplicates removed;
  - each `t.co` link is expanded;
  - each URL is dispatched by `re.search` to its variant: GitHub, Twitter, ZeroKnowledge.fm, YouTube, IACR, 0xPARC or generic;
  - it is normalised and checked against the `re_generic_url` grammar, read with `$` as the end of the text (see "## Findings"), then cut by `urlsplit`;
  - it is given an id, the SHA-1 digest of the lower-cased URL cut to ten hex digits;
  - it is turned into a record: title, authors, publication, a plain line and a Markdown line.

  The records are kept in a map keyed by id.
- **Plain-text link reformatter** (`zktools/txtdoc.py`, plus the older root `txtdoc.py`). For each line:
  - it is trimmed, and a Markdown link in it is flattened;
  - it is rewritten by the first handler that changes it (GitHub, Twitter, podcast, YouTube and, in the current version only, IACR), or else by the generic fallback;
  - it is optionally turned into a Markdown line and truncated.

  `get_links` extracts the URLs of a text.
- **`MarkdownDoc.as_simple`**: rewrites every Markdown link of a text until none is left.
- **`Transcript.as_srt`** (`zktools/transcript.py`): turns blank-line separated transcript blocks into numbered SRT cues. Each cue ends where the next one starts.
- **The pure parts of `zktools/rssdump.py`**: the file-name sanitiser `_autoname`, the cover-image extension, and the year, key and PDF address of an IACR feed entry.

Python exceptions are values of `Results.Error`: the link engine, `as_srt`, the IACR entry fields and the reformatter's line limit return a `Result`. Network fetches, SHA-1 and the `t.co` redirect are parameters: `LinkDoc.Env` for the link engine and `LineFormat.Scrapers` for the reformatter. The link engine's parameters can report a missing answer. The reformatter's fetches always answer, so the exceptions they raise in Python are not modelled (see "## Left out"). Regular expressions are modelled one by one, as scans whose contracts state the leftmost match and the language the pattern accepts. Where a regex backtracks, the scan's contract or the lemmas next to it state which reading Python finds.

Modules, in dependency order:

- `Results`: `Option`, `Result`, `Error`.
- `PyStr`: the ASCII string primitives — `strip`, `split`/`join`, `re.sub` with a count, `title`, `capitalize`, run collapsing.
- `StringOrder`: Python's string order and `sorted(set(...))`.
- `Pattern`: `re.search` with unescaped dots.
- `UrlGrammar`: `re_generic_url`, `urlsplit`, `hash_url`.
- `LinkDoc`, `LinkBatch`.
- `LineFormat`: the handlers both `txtdoc.py` files share verbatim.
- `TextDoc`, `LegacyTextDoc`, `MarkdownDoc`, `Transcript`, `RssDump`.

Some behaviour of the code follows from how it is written rather than from what its names suggest. The model keeps it:

- **GitHub release suffix.** `GithubLink.get_title` appends a release suffix only when `url.split('/')[-1]` is not in `url`. The last piece of a split is always in the text, so the suffix is never appended (`LinkDoc.GithubTitle`).
- **Tweet prefix.** `TwitterLink.get_string` writes `Tweet by @` for every Twitter URL, profiles included (`LinkDoc.TwitterPlainLine`).
- **Missing oEmbed title.** `YoutubeLink._scrape_yt_title_video` returns `r_json.get('title')`, which is `None` when the reply has no title. `Link.parse` then calls `strip()` on it and raises, so the link fails (`LinkDoc.VariantTitle`).
- **`re.I` passed positionally.** The `re.I` given as the fourth positional argument of `re.sub` (linkdoc.py lines 218-220, 266, 339-340) is the `count` argument. It equals 2, so those substitutions replace at most two occurrences and match case exactly. They are modelled that way: `PyStr.Sub` with `AtMost(2)`.

## Model

| member | source | states |
|---|---|---|
| StringOrder.LessIrreflexive | zktools/linkdoc.py:68 | no string is below itself in Python's string order |
| StringOrder.LessAsymmetric | zktools/linkdoc.py:68 | the order is asymmetric |
| StringOrder.LessTransitive | zktools/linkdoc.py:68 | the order is transitive |
| StringOrder.LessTotal | zktools/linkdoc.py:68 | any two different strings are comparable, so `sorted` has one answer |
| StringOrder.Insert | zktools/linkdoc.py:68 | inserting into a strictly ascending list keeps it strictly ascending; its elements are the old ones plus the new one |
| StringOrder.SortedSet | zktools/linkdoc.py:68 | `sorted(set(xs))` is strictly ascending and has exactly the elements of `xs` |
| StringOrder.SortedUnique | zktools/linkdoc.py:68 | two strictly ascending lists with the same elements are equal, so `sorted(set(xs))` is the only such arrangement |
| Pattern.SearchFindsMatch | zktools/linkdoc.py:77-88 | the left-to-right scan of `re.search` succeeds exactly when the pattern matches at some position |
| Pattern.LiteralSearch | zktools/linkdoc.py:83 | a pattern without metacharacters is a substring test |
| Pattern.DottedFindsLiteral | zktools/linkdoc.py:77-88 | a pattern written with unescaped dots matches wherever its literal text occurs |
| PyStr.Lower | zktools/linkdoc.py:50 | `lower()` keeps the length and lower-cases each character |
| PyStr.Capitalize | zktools/linkdoc.py:188 | `capitalize()` upper-cases the first character and lower-cases all others |
| PyStr.Title | zktools/rssdump.py:76 | `title()` upper-cases a letter exactly when the character before it is not a letter and lower-cases every other letter; non-letters stay put |
| PyStr.Strip | zktools/linkdoc.py:109 | `strip()` cuts only whitespace, off both ends: everything before and after the result is whitespace and the result starts and ends with a non-space; `PyStr.StripCharacterised` shows this pins it down |
| PyStr.RStripChar | zktools/linkdoc.py:109 | `rstrip('/')` removes exactly the trailing run of `/` |
| PyStr.StripIdempotent | zktools/linkdoc.py:134-136 | stripping twice is stripping once |
| PyStr.StripCharacterised | zktools/linkdoc.py:109 | a slice with only whitespace before and after it, and non-space ends, is the result of `strip()` |
| PyStr.StripCount | zktools/txtdoc.py:135-136 | stripping keeps every non-whitespace character as often as it occurs |
| PyStr.Find | zktools/txtdoc.py:147-148 | the leftmost occurrence of a pattern, and None exactly when there is none |
| PyStr.JoinSplit | zktools/transcript.py:30 | joining the pieces of a split with the same separator gives the text back |
| PyStr.SplitJoin | zktools/txtdoc.py:116 | splitting a join of pieces free of a one-character separator gives the pieces back |
| PyStr.SplitPiecesLackSeparator | zktools/linkdoc.py:245 | no piece of a split holds the separator |
| PyStr.SplitTail | zktools/txtdoc.py:148 | the pieces after the first, joined back, are the text after the first separator, or empty without one |
| PyStr.SplitLastBehind | zktools/rssdump.py:164 | the last piece of a split is the whole text when nothing was cut, else the text behind the last separator |
| PyStr.SplitLastIsSuffix | zktools/linkdoc.py:223 | the last piece of a split ends the text |
| PyStr.SubKeeps | zktools/rssdump.py:74 | a character property held by the input and the replacement holds for the result of `re.sub` |
| PyStr.SubChars | zktools/linkdoc.py:217-220 | `re.sub` introduces no character that is in neither the input nor the replacement |
| PyStr.SubAllRemovesChar | zktools/linkdoc.py:217 | substituting a character everywhere by a text without it leaves none of it |
| PyStr.SubBounded | zktools/linkdoc.py:218-220 | with `count = n`, occurrences after the n-th stay in the text |
| PyStr.SubEnough | zktools/linkdoc.py:218-220 | a count at least the number of occurrences replaces them all |
| PyStr.SubShrinks | zktools/linkdoc.py:265-266 | a replacement no longer than the pattern never lengthens the text |
| PyStr.SubNoMatch | zktools/linkdoc.py:339-340 | a text without the pattern is left unchanged |
| PyStr.SubAllJoinsSplit | zktools/linkdoc.py:217 | an unbounded `re.sub` of a literal is the split at that literal joined by the replacement |
| PyStr.ReplaceRuns | zktools/rssdump.py:75 | after `re.sub(r'[class]+', c, s)` every class character is `c` and no two class characters touch; every character outside the class other than `c` occurs exactly as often as in the input; a non-empty input stays non-empty and keeps a first character outside the class |
| PyStr.ReplaceRunsFrom | zktools/rssdump.py:75 | every character of the result other than the replacement comes from the input |
| PyStr.ReplaceRunsKeeps | zktools/rssdump.py:75 | a character property held by the input and the replacement holds for the result |
| PyStr.ReplaceRunsStep | zktools/rssdump.py:75 | text outside the class, then a run of the class of any length, reads as that text, one `c`, and the rest replaced |
| PyStr.RunsOfTwo | zktools/rssdump.py:75 | two runs of one class character each separate text outside the class: each becomes `c` |
| PyStr.Filter | zktools/rssdump.py:72 | `re.sub(r'[^class]', '', s)` leaves only class characters, each exactly as often as in the input |
| PyStr.FilterAll | zktools/rssdump.py:72 | a text made only of class characters is kept whole |
| PyStr.FilterAppend | zktools/rssdump.py:72 | filtering a concatenation filters each part, in order |
| PyStr.CollapseSpaces | zktools/linkdoc.py:138 | after `re.sub(r'\s+', ' ', s)` every whitespace character is a space and no two spaces touch; every other character occurs exactly as often as in the input; a non-empty input stays non-empty |
| PyStr.CollapseStep | zktools/linkdoc.py:138 | text without whitespace, then a whitespace run of any length, becomes that text, one space, and the rest collapsed |
| PyStr.ReplaceCountChar | zktools/txtdoc.py:185 | replacing a pattern by a text with fewer of a character never adds any of it, and removes some when the pattern occurs |
| PyStr.SliceTo | zktools/txtdoc.py:120 | `s[:k]` keeps the first `k` characters, and for negative `k` all but the last `-k` |
| UrlGrammar.SchemeLen | zktools/linkdoc.py:40 | the `(?:http\|ftp)s?://` prefix is the leading run of letters followed by `://`, or absent |
| UrlGrammar.HostChars | zktools/linkdoc.py:41-43 | a host of the grammar is a non-empty run of host characters, so the longest run after the scheme is the only candidate |
| UrlGrammar.DomainTextIsDomain | zktools/linkdoc.py:41 | every text built as `(?:label\.)+tld\.?` is recognised as a domain |
| UrlGrammar.DomainPieces | zktools/linkdoc.py:41 | every recognised domain is such a text, so the recogniser and the pattern agree both ways |
| UrlGrammar.SplitTailRoundTrip | zktools/linkdoc.py:118-123 | `urlsplit`'s path, query and fragment put back together give the tail |
| UrlGrammar.DecomposeRoundTrip | zktools/linkdoc.py:118-123 | cutting a URL into scheme, host, port, path, query and fragment loses nothing |
| UrlGrammar.ComposeRoundTrip | zktools/linkdoc.py:118-123 | pieces of the right shape put together are cut back into the same pieces |
| UrlGrammar.AcceptsIffWellFormed | zktools/linkdoc.py:39-45 | an accepted URL has well-formed pieces that give it back; well-formed pieces give an accepted URL that is cut into them |
| UrlGrammar.AcceptedHasNoSpace | zktools/linkdoc.py:39-45 | an accepted URL holds no whitespace and starts with a letter |
| UrlGrammar.AsWrittenAcceptsNewline | zktools/linkdoc.py:45 | with Python's `$`, an accepted URL followed by a newline is accepted too; the corrected recogniser rejects it |
| UrlGrammar.LinkAdmitsNewlineAsWritten | zktools/linkdoc.py:109-114 | `Link(url + "\n/")` reaches the pattern as `url + "\n"` and is accepted as written |
| UrlGrammar.NewlineExample | zktools/linkdoc.py:109-114 | `http://a.com\n/` normalises to `http://a.com\n`, which the pattern accepts as written and the corrected one rejects |
| UrlGrammar.Normalize | zktools/linkdoc.py:109 | `strip().rstrip('/')` is a prefix of the stripped URL; what it cuts off is all `/`, and it leaves no trailing `/` |
| UrlGrammar.NormalizeIdempotent | zktools/linkdoc.py:109-114 | normalising an accepted normal form again changes nothing |
| UrlGrammar.NormalizeFixed | zktools/linkdoc.py:109 | a URL without whitespace or a trailing `/` is its own normal form |
| UrlGrammar.HashUrl | zktools/linkdoc.py:48-56 | the id is a prefix of the SHA-1 hex digest of the lower-cased URL; it is as long as a positive `length` asks (at most 40) and whole otherwise; it is made of hex digits |
| UrlGrammar.HashUrlCaseBlind | zktools/linkdoc.py:48-56 | URLs equal up to case get the same id, and the default id is the first ten digits of the full digest |
| LinkDoc.PatternsUnfold | zktools/linkdoc.py:77-88 | each variant's dispatch test is the search for its pattern, with the unescaped dots as written |
| LinkDoc.KindOf | zktools/linkdoc.py:77-90 | a variant other than generic is picked only when its pattern matches, and then no earlier variant's pattern matches |
| LinkDoc.DispatchIsFirstMatch | zktools/linkdoc.py:77-90 | a URL goes to a variant exactly when that variant's pattern matches and no earlier variant's does |
| LinkDoc.DottedDispatchExample | zktools/linkdoc.py:77-78 | the unescaped dot sends `github-com` to the GitHub variant |
| LinkDoc.ScrapedTitle | zktools/linkdoc.py:194-201 | `og:title` wins when present, else the `<title>` string, else the empty string |
| LinkDoc.TitleFromPath | zktools/linkdoc.py:181-188 | the title from a path has no separators, single spaces only, no space at either end, a non-lower-case first character and lower-case elsewhere |
| LinkDoc.TitleFromUrl | zktools/linkdoc.py:181-189 | the title comes from the path when there is one, else it is the capitalised host name |
| LinkDoc.TitleFromOneSegment | zktools/linkdoc.py:181-188 | `/word` gives the word capitalised |
| LinkDoc.TitleFromTwoSegments | zktools/linkdoc.py:181-188 | `/a/b` gives `a b` capitalised |
| LinkDoc.GithubRewrites | zktools/linkdoc.py:217-220 | no `·` is left in a GitHub title |
| LinkDoc.GithubRewritesPlain | zktools/linkdoc.py:217-220 | a title without `·`, `Release `, ` \| GitHub` or `GitHub - ` is left alone |
| LinkDoc.GithubRewritesExample | zktools/linkdoc.py:217-220 | `a · GitHub` becomes `a` |
| LinkDoc.GithubTitle | zktools/linkdoc.py:215-226 | the release branch never appends a suffix: the title is the rewritten scraped title |
| LinkDoc.PodcastTitle | zktools/linkdoc.py:263-267 | the podcast rewrites never lengthen the title |
| LinkDoc.PodcastTitlePlain | zktools/linkdoc.py:263-267 | a title without `Episode` or ` - ZK Podcast` is left alone |
| LinkDoc.PodcastTitleExample | zktools/linkdoc.py:263-267 | `Episode 5 - ZK Podcast` becomes `Ep 5` |
| LinkDoc.AbbreviateZkp | zktools/linkdoc.py:356 | abbreviating `Zero[- ]Knowledge Proof(s)?` never lengthens the title |
| LinkDoc.AbbreviateZkpNoPhrase | zktools/linkdoc.py:356 | a title without the phrase is left alone |
| LinkDoc.AbbreviateZkpExample | zktools/linkdoc.py:356 | `Zero-Knowledge Proofs` becomes `ZKP`, the optional `s` included |
| LinkDoc.VariantTitle | zktools/linkdoc.py:166-175 | 0xPARC and Twitter titles are `title_url`. A YouTube video or playlist gets the oEmbed title, `--No Title Found--` on an HTTP error, and fails when the reply has no title. Every other variant fails exactly when the scraped title is `None`: an `og:title` tag without `content`, or a `<title>` whose `.string` is `None`; a page with neither tag gives the empty title, which succeeds. Otherwise it gives the scraped title through its rewrite: `title()` for a generic link, the GitHub, podcast or ZKP rewrite, and unchanged for other YouTube links |
| LinkDoc.ScrapedOr | zktools/linkdoc.py:194-201 | fails with `MissingTitle` exactly when the scraped title is `None` (an `og:title` tag without `content`, or a `<title>` whose `.string` is `None`; a page with neither tag gives `''` and succeeds), and otherwise gives the rewrite of the scraped title |
| LinkDoc.AbbreviateAuthor | zktools/linkdoc.py:346-350 | an author name is abbreviated to its first character, `. ` and the words after the first; an empty name fails |
| LinkDoc.JoinRest | zktools/linkdoc.py:347-349 | `' '.join(parts[1:])` is the text after the first space |
| LinkDoc.AbbreviateAll | zktools/linkdoc.py:344-352 | every author is abbreviated in order exactly when all are present and non-empty; otherwise a missing or empty one exists |
| LinkDoc.QueryParam | zktools/linkdoc.py:303-305 | the parameter is found exactly when some field names it with a value, and it is the first such field's value |
| LinkDoc.VariantAuthors | zktools/linkdoc.py:244-246 | only IACR authors can fail. A tweet's author is the first space-delimited word of `title_url`. A `/watch` video's author is its `ab_channel` query value, or `blabla`. Other YouTube links and the remaining variants have no authors. IACR authors are the abbreviated citation authors joined by `, ` |
| LinkDoc.SplitFirstIsPrefix | zktools/linkdoc.py:245 | the first piece of a split starts the text |
| LinkDoc.Publication | zktools/linkdoc.py:161-164 | the publication is no longer than the host and has no upper-case letters |
| LinkDoc.PublicationPieces | zktools/linkdoc.py:161-164 | the publication is the lower-cased host with every `www.` removed |
| LinkDoc.PublicationDropsWww | zktools/linkdoc.py:161-164 | `www.name` gives `name` lower-cased |
| LinkDoc.StripAbChannel | zktools/linkdoc.py:284 | removing `&?ab_channel=...` never lengthens the URL |
| LinkDoc.StripAbChannelNoParam | zktools/linkdoc.py:284 | a URL without `ab_channel=` is left alone |
| LinkDoc.JoinPresent | zktools/linkdoc.py:149-152 | every non-empty part occurs in the joined line |
| LinkDoc.JoinPresentIsJoin | zktools/linkdoc.py:149-152 | the line is the non-empty parts joined by ` \| ` |
| LinkDoc.IacrEdition | zktools/linkdoc.py:360-364 | the IACR edition of `/<year>/<number>` reads back as `<year>/<number>` |
| LinkDoc.VariantUrl | zktools/linkdoc.py:338-342 | only the IACR variant rewrites its URL: the first two `eprint.iacr.org` become `ia.cr` |
| LinkDoc.IacrUrlRewritten | zktools/linkdoc.py:338-342 | with at most two occurrences, every `eprint.iacr.org` becomes `ia.cr` |
| LinkDoc.ParseLink | zktools/linkdoc.py:107-147 | a URL outside the grammar fails with `InvalidUrl`, and an accepted one never does. A parsed record holds the normalised URL and its hash id, its `title_url`, the variant's title and authors stripped, the stripped publication, and a plain line without double spaces |
| LinkDoc.ParseAccepted | zktools/linkdoc.py:116-147 | an accepted URL never fails with `InvalidUrl`; its record holds the URL, its id and `title_url`, the variant's title, authors and publication stripped, and a plain line without double spaces |
| LinkDoc.BuildRecord | zktools/linkdoc.py:133-147 | the record keeps the URL and `title_url` and carries the URL's id. It holds the title, authors and publication stripped, the variant's plain line with its spaces collapsed, and the variant's Markdown line |
| LinkDoc.TwitterPlainLine | zktools/linkdoc.py:239-254 | a tweet's plain line is `url \| Tweet by @author`, whose author is the first word of `title_url` |
| LinkDoc.PlainLine | zktools/linkdoc.py:149-365 | every variant but generic and 0xPARC starts its line with its shown URL and ` \| `; the others start with the URL |
| LinkDoc.PlainLineUrlField | zktools/linkdoc.py:228-365 | the first ` \| ` field of a variant's line is its shown URL |
| LinkDoc.PlainLineFields | zktools/linkdoc.py:269-271 | a GitHub or podcast line splits back at ` \| ` into URL, title and publication |
| LinkDoc.MarkdownLine | zktools/linkdoc.py:154-379 | a linked title is `[title](url)` plus the variant's tail; a tweet is `[Tweet](url)` plus the tail; every YouTube line ends in the shown URL in `(...)` |
| LinkBatch.StripAll | zktools/linkdoc.py:65 | each line is stripped, in order |
| LinkBatch.SplitLines | zktools/linkdoc.py:63-65 | the text form gives at least one line, each stripped and free of `\n` and `\r`; `LinkBatch.SplitLinesLayout` states which lines |
| LinkBatch.SplitLinesJoin | zktools/linkdoc.py:63-65 | URLs written one per line are read back as they were |
| LinkBatch.SplitLinesLayout | zktools/linkdoc.py:63-65 | lines written with any padding, any non-empty runs of line breaks between them, and any whitespace around the whole, are read back as they were |
| LinkBatch.JoinKeepsBreaks | zktools/linkdoc.py:64 | lines joined with single newlines leave no line-break run to collapse |
| LinkBatch.InitialUrls | zktools/linkdoc.py:63-68 | `_urls` has the given URLs, strictly sorted when sorting is asked for, else exactly as given |
| LinkBatch.SortedInitialIsCanonical | zktools/linkdoc.py:68 | with sorting, lists with the same elements give the same `_urls` |
| LinkBatch.Expand | zktools/linkdoc.py:72-75 | only a shortened link changes; it fails exactly when there is no redirect, else it becomes the redirect target |
| LinkBatch.LookalikeShortened | zktools/linkdoc.py:72 | any URL holding `t`, one character, `co/` is treated as shortened |
| LinkBatch.ParseOne | zktools/linkdoc.py:71-96 | a failed expansion is the iteration's failure. Otherwise the expanded URL is parsed by the variant `KindOf` picks for it, and a parsed record's id is the hash of its URL |
| LinkBatch.ParseEach | zktools/linkdoc.py:71-99 | the loop succeeds exactly when every link parses, giving their records in order; otherwise it gives the first failing link's error |
| LinkBatch.FirstFailureUnique | zktools/linkdoc.py:71-99 | whichever link fails first decides the loop's error |
| LinkBatch.IndexById | zktools/linkdoc.py:98 | each record is stored under its own id, and there are no more entries than records |
| LinkBatch.IndexKeys | zktools/linkdoc.py:98 | the keys of `data` are exactly the ids of the records |
| LinkBatch.IndexLastWins | zktools/linkdoc.py:98 | a record that no later record shares its id with is the one kept |
| LinkBatch.IndexSnoc | zktools/linkdoc.py:98 | storing one more record overwrites its id's entry |
| LinkBatch.UrlsOf | zktools/linkdoc.py:92 | `_urls` is rewritten to the records' URLs, in order |
| LinkBatch.ParseLoop | zktools/linkdoc.py:70-99 | `parse()` succeeds exactly when every link parses; then `_urls` holds the parsed URLs and `data` the records keyed by id; each key is the id of its record's URL |
| LinkBatch.LinkIdsByUrl | zktools/linkdoc.py:94-96 | the `assert(hurl == _id)` of `parse()` never fails |
| LinkBatch.Parse | zktools/linkdoc.py:59-99 | `Links(src, sort).parse()` is the loop over the initial URLs, with the same outcome, URLs and map |
| LineFormat.ScrapeHtmlTitle | zktools/txtdoc.py:84-89 | a missing or empty page title gives `No Title`. Otherwise the title is stripped with its whitespace runs made single spaces, and every other character occurs as often as in the page title |
| LineFormat.HttpLen | zktools/txtdoc.py:27 | the optional `https?://` is read exactly when the line starts with it |
| LineFormat.SchemeRetryFails | zktools/txtdoc.py:27-46 | once a scheme is read, retrying the handler pattern without it cannot match |
| LineFormat.HandleSpan | zktools/txtdoc.py:27 | the `host [^/ ]+ /? tail` span is found exactly when the host follows the scheme and a non-empty name follows the host |
| LineFormat.Github | zktools/txtdoc.py:26-28 | a line starting with a GitHub URL becomes `match \| @owner/repo \| Github`; others are unchanged |
| LineFormat.Twitter | zktools/txtdoc.py:31-34 | a line starting with a Twitter URL becomes `match \| [Tweet by ]@handle \| Twitter`; others are unchanged |
| LineFormat.TweetByIffPath | zktools/txtdoc.py:33 | `Tweet by ` appears exactly when the handle is followed by `/` and a non-space |
| LineFormat.GithubIdempotent | zktools/txtdoc.py:26-28 | reformatting a GitHub line twice is reformatting it once |
| LineFormat.TwitterIdempotent | zktools/txtdoc.py:31-34 | reformatting a Twitter line twice is reformatting it once |
| LineFormat.ZkfmEnd | zktools/txtdoc.py:38 | the podcast URL is matched exactly when `zeroknowledge.fm/`, with its dots as wildcards, follows the scheme |
| LineFormat.PodcastSuffix | zktools/txtdoc.py:40 | a final `- ZK Podcast`, or one before a final newline, has its `-` made `\|` with every other character kept; a title without it is unchanged |
| LineFormat.Zkfm | zktools/txtdoc.py:37-42 | a podcast line becomes its matched URL, ` \| ` and the episode title: the page title with the suffix rewritten and `Episode` made `Ep`. Other lines are unchanged |
| LineFormat.Labelled | zktools/txtdoc.py:42 | `f'{url} \| {tag}'` starts with the URL and ` \| ` and ends with the tag |
| LineFormat.VideoFrom | zktools/txtdoc.py:46 | the video id is the word run after one optional `/`, and it is missing exactly when no word character comes there |
| LineFormat.YoutubeFrom | zktools/txtdoc.py:46 | a match of `youtu\.?be(.com)?` starts with `youtu` and is followed by a video id; the lemmas below state which reading is found |
| LineFormat.YoutubeFromReads | zktools/txtdoc.py:46 | every match is a reading of the pattern: `youtu`, an optional `.`, `be`, an optional any-character `.com`, an optional `/` and a whole word run |
| LineFormat.YoutubeFromPrefersCom | zktools/txtdoc.py:46 | when a reading with the `(.com)` group exists, that one is found |
| LineFormat.YoutubeFromFallsBack | zktools/txtdoc.py:46 | when no reading has the group, the reading without it is found |
| LineFormat.YoutubeFromComplete | zktools/txtdoc.py:46 | whenever some reading exists, the scan finds a match |
| LineFormat.YoutubeFromIffReading | zktools/txtdoc.py:46 | the scan finds a match exactly when some reading exists |
| LineFormat.YoutubeComRetried | zktools/txtdoc.py:46 | `youtubeXcom` takes the group and reads the id after it |
| LineFormat.YoutubeSpan | zktools/txtdoc.py:46 | after the optional scheme, a video is found exactly when some reading of the pattern starts there |
| LineFormat.ScrapeYtTitle | zktools/txtdoc.py:72-81 | the oEmbed title of the video, or `No Title` when the JSON reply carries none or is an error reply |
| LineFormat.Youtube | zktools/txtdoc.py:45-51 | a YouTube line becomes its matched URL and the video's title; others are unchanged |
| LineFormat.LastParen | zktools/txtdoc.py:125 | the last `)` of a range, and None exactly when there is none |
| LineFormat.MdAt | zktools/txtdoc.py:125 | the Markdown-link pattern at a position reads the text to the first `]` and the URL to the last `)` before a newline |
| LineFormat.FirstMd | zktools/txtdoc.py:125 | the search finds the leftmost position where the pattern matches |
| LineFormat.MdAtIsLink | zktools/txtdoc.py:125 | what the scan finds is a link in the pattern's language |
| LineFormat.LinkFoundAt | zktools/txtdoc.py:125 | any link of the pattern's language is found at its `[` |
| LineFormat.FirstMdIffLink | zktools/txtdoc.py:125-126 | the search succeeds exactly when the line holds a Markdown link |
| LineFormat.ForceSimple | zktools/txtdoc.py:123-132 | a line holding a Markdown link becomes exactly `url \| txt`; other lines are unchanged |
| LineFormat.FlattenLinkThen | zktools/txtdoc.py:123-132 | `[a](b)` followed by text without `)` or newline flattens to `b \| a` |
| LineFormat.NoBracketNoLink | zktools/txtdoc.py:123-132 | a line without `[` is unchanged |
| LineFormat.FlattenWrittenLink | zktools/txtdoc.py:123-132 | a line that is exactly `[a](b)`, with `]` absent from `a` and no newline in `b`, is flattened to `b \| a` |
| LineFormat.StripTrailingNewline | zktools/txtdoc.py:135-136 | `strip()` of a text with non-space ends plus a newline gives the text back |
| LineFormat.FlattenWrittenLine | zktools/txtdoc.py:123-136 | a written link line `[a](b)` plus newline, trimmed and flattened, gives back `b \| a` |
| LineFormat.SiteOf | zktools/txtdoc.py:154 | the domain is the `[^/ ]+` run after the scheme; with the scheme optional, the retry reads it from the line's start |
| LineFormat.PathEnd | zktools/txtdoc.py:154 | the path is present exactly when `/` and a non-space follow the domain, and it runs to the next space |
| LineFormat.SlashTrimmed | zktools/txtdoc.py:163 | when the path, right-stripped, ends in `/`, the result is it without that `/`; otherwise the path is unchanged |
| LineFormat.SlashTrimmedKeeps | zktools/txtdoc.py:163 | a path ending in a character other than `/` or whitespace, plus whitespace, is unchanged |
| LineFormat.PathTitle | zktools/txtdoc.py:163-167 | a path title holds only word characters other than `_`, whitespace and dots; its letters are title-cased |
| LineFormat.PathTitleLastSegment | zktools/txtdoc.py:164 | the path title depends only on the last segment |
| LineFormat.SiteUrl | zktools/txtdoc.py:158 | the whole `group(1)` match: the reported URL starts the line and covers the domain. It goes on exactly when `/` and a non-space follow the domain, and then runs to the next space or the end |
| LineFormat.Default | zktools/txtdoc.py:153-170 | a line starting with a URL becomes `url \| title \| domain`; others are unchanged |
| LineFormat.DefaultNeedsScheme | zktools/txtdoc.py:154-157 | with the scheme required, a line without `http://` or `https://` is unchanged |
| LineFormat.OptionalSchemeReadsAll | txtdoc.py:130-133 | with the scheme optional, a trimmed line is read as a URL unless it is empty or starts with `/` |
| LineFormat.Truncate | zktools/txtdoc.py:119-121 | a truncated line ends in `...` behind a prefix of the line, and for a limit of at least 4 it is at most `limit - 1` long |
| LineFormat.FirstChange | zktools/txtdoc.py:139-142 | the index of the first handler that changes the line, and None exactly when none does |
| LineFormat.Chain | zktools/txtdoc.py:138-144 | the result is the output of the first handler that changes the line, or the fallback's when none does |
| LineFormat.MdFields | zktools/txtdoc.py:147-148 | the URL field is the stripped text before the first `\|`, the text field the stripped text after it |
| LineFormat.TextIn | zktools/txtdoc.py:95 | `strip().strip('\n').strip()` is one `strip()` |
| LineFormat.LinesIn | zktools/txtdoc.py:96 | the lines hold no newline, and joined by newlines they give the stripped text back, so they are its split at every newline |
| LineFormat.LinesOut | zktools/txtdoc.py:112-115 | one output line per input line: the processed line, truncated when the limit is positive |
| LineFormat.ReformatLinks | zktools/txtdoc.py:108-117 | a negative limit raises; otherwise the output lines are joined by newlines |
| LineFormat.ReformatSplitsBack | zktools/txtdoc.py:116 | when no output line holds a newline, the text splits back into the output lines |
| TextDoc.EditionEnd | zktools/txtdoc.py:54 | the edition is the non-empty run of non-newlines after `eprint.iacr.org/` |
| TextDoc.Iacr | zktools/txtdoc.py:53-61 | an IACR line becomes `line \| title by authors \| IACR - edition`, with the page's `citation_title` and `citation_author`; others are unchanged |
| TextDoc.Handlers | zktools/txtdoc.py:138 | five handlers in the order GitHub, Twitter, podcast, YouTube, IACR |
| TextDoc.PlainLine | zktools/txtdoc.py:134-144 | the trimmed, flattened line goes to the first handler that changes it, or to the fallback with the scheme required |
| TextDoc.ProcessLine | zktools/txtdoc.py:134-151 | the plain line, or its Markdown form when `md` is set |
| TextDoc.MdLine | zktools/txtdoc.py:146-149 | `[txt](url)` and a newline, from the fields before and after the first `\|` |
| TextDoc.MdLineReadBack | zktools/txtdoc.py:134-149 | the Markdown line, trimmed and flattened again, gives back `url \| txt`: writing and flattening are inverse |
| TextDoc.EngineMarkdownFlattens | zktools/linkdoc.py:154-156 | a Markdown line of the link engine, flattened by the reformatter, gives `url \| title` |
| TextDoc.GithubLineWins | zktools/txtdoc.py:138-142 | a line the GitHub handler changes is never seen by a later handler |
| TextDoc.Reformat | zktools/txtdoc.py:92-117 | a negative limit fails and, with fetches that always answer, nothing else does; otherwise the processed lines are joined |
| TextDoc.CiSchemeAt | zktools/txtdoc.py:101 | the case-insensitive `https?://` at a position, or none |
| TextDoc.LinkEnd | zktools/txtdoc.py:101 | a link starts at a position exactly when a case-insensitive `https?://` is there with a non-space after it; it runs to the next whitespace |
| TextDoc.LinkEndIsLink | zktools/txtdoc.py:101 | every match is a scheme followed by at least one non-space |
| TextDoc.FindLinks | zktools/txtdoc.py:102 | every link found is in the pattern's language |
| TextDoc.FindLinksLeftmost | zktools/txtdoc.py:102 | the scan reports the leftmost link, then goes on after it: no link is skipped |
| TextDoc.GetLinks | zktools/txtdoc.py:100-106 | every link returned is in the pattern's language |
| TextDoc.LinkAlone | zktools/txtdoc.py:100-106 | a text that is one link gives exactly that link |
| TextDoc.LinksTextSplitsBack | zktools/txtdoc.py:103-104 | the text form splits back into the links |
| LegacyTextDoc.Handlers | txtdoc.py:114 | four handlers: GitHub, Twitter, podcast, YouTube |
| LegacyTextDoc.PlainLine | txtdoc.py:110-120 | the first handler that changes the line, or the fallback with the scheme optional |
| LegacyTextDoc.ProcessLine | txtdoc.py:110-127 | the plain line, or its Markdown form when `md` is set |
| LegacyTextDoc.MdLine | txtdoc.py:122-125 | `[url](txt)` with no newline, from the fields before and after the first `\|` |
| LegacyTextDoc.MdLineSwapped | txtdoc.py:122-125 | the older Markdown line, flattened again, gives back `txt \| url`: URL and text trade places |
| LegacyTextDoc.Reformat | txtdoc.py:81-93 | a negative limit fails and, with fetches that always answer, nothing else does; otherwise the processed lines are joined |
| LegacyTextDoc.HandlersShared | txtdoc.py:114 | the older handlers are the current ones less IACR |
| LegacyTextDoc.SharedHandlerAgrees | txtdoc.py:114-118 | a line a shared handler changes reads the same in both versions |
| LegacyTextDoc.FallbackAgrees | txtdoc.py:130 | with a scheme and a domain, the optional scheme changes nothing |
| LegacyTextDoc.IacrOnlyInCurrent | txtdoc.py:114 | an IACR line goes to the IACR handler in the current version and to the fallback in the older one |
| LegacyTextDoc.BareDomainRead | txtdoc.py:130-133 | a line without scheme is read as a URL by the older fallback and left alone by the current one; without a path, the older one fetches the page title of the bare domain, which has no scheme |
| MarkdownDoc.LinkAt | zktools/txtdoc.py:178 | the pattern matches at a position exactly for the one link of its language that starts there |
| MarkdownDoc.FirstLink | zktools/txtdoc.py:179 | `md_pat.search` finds the leftmost link |
| MarkdownDoc.FirstLinkIff | zktools/txtdoc.py:179-180 | the search succeeds exactly when the text holds a link |
| MarkdownDoc.CountLinks | zktools/txtdoc.py:193 | `findall` counts some link exactly when the search finds one |
| MarkdownDoc.HostFrom | zktools/txtdoc.py:198 | the leftmost `twitter.com/` followed by a handle |
| MarkdownDoc.TwitterHandle | zktools/txtdoc.py:198-200 | a handle exists exactly when some `twitter.com/` is followed by a name. It is that name after the leftmost such host, `HostFrom`'s, up to `/`, a space or the end. It is non-empty and adds no `]` |
| MarkdownDoc.Replacement | zktools/txtdoc.py:184 | `@handle` when the URL names a Twitter handle and the text's first line holds a link; `name - url` otherwise |
| MarkdownDoc.SameLinkInside | zktools/txtdoc.py:194 | the matched text searched again on its own gives the same link |
| MarkdownDoc.LinkText | zktools/txtdoc.py:181-183 | the matched text is `[name](url)` |
| MarkdownDoc.ReplacementDropsBracket | zktools/txtdoc.py:184 | the replacement holds fewer `]` than the link it replaces |
| MarkdownDoc.RoundDropsBracket | zktools/txtdoc.py:185 | each round of the loop removes at least one `]`, so the loop ends |
| MarkdownDoc.AsSimple | zktools/txtdoc.py:173-187 | the result holds no link and no more `]` than the input; a text without links is only stripped |
| Transcript.FirstStamp | zktools/transcript.py:28 | the leftmost `\d\d:\d\d:\d\d`, and None exactly when there is none |
| Transcript.BodyAt | zktools/transcript.py:29 | `\):\n?(.+)` at a position: `):`, an optional newline, and a non-empty text to the end of the line |
| Transcript.FirstBody | zktools/transcript.py:29 | the leftmost position where the body pattern matches, and None exactly when there is none |
| Transcript.ParseBlock | zktools/transcript.py:33-37 | a block fails on a missing stamp, else on a missing body. A clip holds the block's first `\d\d:\d\d:\d\d` and the text read after its first `):` |
| Transcript.BodyHere | zktools/transcript.py:29 | after `):` and a newline, the text runs to the end of a one-line rest |
| Transcript.BodyFoundAt | zktools/transcript.py:29 | the first `):` of a block is where the body is read |
| Transcript.WrittenBlock | zktools/transcript.py:28-37 | a block written `hh:mm:ss (speaker):` with the text on the next line yields that stamp and that text |
| Transcript.Blocks | zktools/transcript.py:30 | the blocks, joined by blank lines, are the transcript |
| Transcript.ParseEach | zktools/transcript.py:32-39 | the blocks parse exactly when each does, giving their clips in order; otherwise the first failing block's error |
| Transcript.Ripple | zktools/transcript.py:32-42 | cue `k` is numbered `k`, keeps clip `k`'s start and text, and ends where the next clip starts; the last cue ends at the previous start, or `00:00:00` |
| Transcript.AsSrt | zktools/transcript.py:27-52 | a failing block is the conversion's failure; otherwise the cues are rendered in order |
| Transcript.CueText | zktools/transcript.py:45-50 | a cue's text starts with its number and a newline and ends with its body and a blank line |
| Transcript.CueTextLines | zktools/transcript.py:50 | a cue of one-line parts splits at newlines into number, `start --> end`, body and two empty lines |
| Transcript.Render | zktools/transcript.py:45-52 | no cues give the empty text; otherwise it ends with a blank line |
| Transcript.RenderCons | zktools/transcript.py:46-50 | the text of a list is the first cue's text followed by the rest's |
| Transcript.RenderAppend | zktools/transcript.py:46-50 | rendering two lists one after the other is rendering their concatenation |
| Transcript.EmptyTranscriptFails | zktools/transcript.py:30-34 | an empty transcript is one block without a stamp and fails |
| RssDump.DropSchemes | zktools/rssdump.py:71 | removing schemes never lengthens the name and adds no character |
| RssDump.NoColonNoScheme | zktools/rssdump.py:71 | a name without `:` holds no scheme |
| RssDump.Underscored | zktools/rssdump.py:73 | `.` and `/` become `_`, everything else stays in place |
| RssDump.UnderscoredKeeps | zktools/rssdump.py:73 | without `.` or `/` nothing changes |
| RssDump.Cleaned | zktools/rssdump.py:70-73 | after cleaning only word characters and spaces are left |
| RssDump.BaseName | zktools/rssdump.py:70-76 | the name is made of word characters, has no two `_` in a row, and is title-cased |
| RssDump.JoinedShape | zktools/rssdump.py:75 | once separator runs are one `_`, only word characters are left and no two `_` touch |
| RssDump.TitleShape | zktools/rssdump.py:76 | title-casing keeps the characters word characters and every `_` in place |
| RssDump.Framed | zktools/rssdump.py:77-78 | the name follows `prefix_` when there is a prefix and ends in `.ext` when there is an extension, with the base between |
| RssDump.Autoname | zktools/rssdump.py:68-79 | the name starts with `prefix_` when there is a prefix, holds the cleaned base name right after it, and ends in `.ext` when there is an extension; with neither it has only word characters, no two `_` in a row, and is title-cased |
| RssDump.RStripBehind | zktools/rssdump.py:70 | stripping text behind a prefix that does not end in whitespace strips only the text |
| RssDump.SchemeIgnored | zktools/rssdump.py:68-79 | with `x_http`, a leading `https://` makes no difference to the name |
| RssDump.CleanedPlain | zktools/rssdump.py:70-73 | cleaning leaves a lower-case word alone |
| RssDump.LowerChars | zktools/rssdump.py:72-75 | a lower-case word holds no `:`, `.`, `/` or separator |
| RssDump.PlainNoEpisode | zktools/rssdump.py:74 | a lower-case word holds no `Episode` |
| RssDump.PlainBase | zktools/rssdump.py:70-76 | only title-casing changes a lower-case word |
| RssDump.TitleOfLower | zktools/rssdump.py:76 | title-casing a lower-case word upper-cases its first letter only |
| RssDump.PlainWordKept | zktools/rssdump.py:68-79 | a lower-case word is named with its first letter upper-cased and nothing else changed |
| RssDump.QueryStripped | zktools/rssdump.py:163 | the address is the text before the first `?` |
| RssDump.ImageExt | zktools/rssdump.py:163-164 | the extension is `JPG` when the address is empty or ends in `.`; otherwise a non-empty text without `.` that is the whole address or follows its last `.` |
| RssDump.DotEndsEmpty | zktools/rssdump.py:164 | after a final `.` the last piece is empty |
| RssDump.IacrEntryOf | zktools/rssdump.py:259-262 | a link without `/` fails to unpack; otherwise the year and key have no `/`, the link ends in `year/key`, and the PDF is the link plus `.pdf` |
| RssDump.LastTwoPieces | zktools/rssdump.py:262 | the last two pieces of a split at `/` end the link, joined by `/` |
| RssDump.IacrLinkRead | zktools/rssdump.py:259-262 | a link `…/year/key` yields that year and key |

## Left out

- Network access: `requests.get`, the oEmbed endpoint, BeautifulSoup and lxml parsing. Each becomes a parameter that gives the parsed answer: `LinkDoc.Env` (`page`, `oembed`, `redirect`) and `LineFormat.Scrapers`. The HTML parsers themselves are not modelled.
- SHA-1 and `str.encode`: a parameter `sha1` returning 40 lower-case hex digits. The hash itself is not modelled.
- The `_r` response cache in `Link`: each fetch is a pure function of the URL, so a cache changes nothing.
- `urlparse`/`unquote`: `Link` with `from_path=True` is only reached through `IACRLink`, whose `get_title` ignores it. `unquote` of a title is therefore never applied in the modelled flows.
- `parse_qs`: modelled as the first `name=value` field with a non-empty value and `+` read as a space. Percent-decoding and `;` separators are not modelled.
- Characters outside ASCII: `\s`, `\w`, `\d`, `str.isspace` and case mapping only treat ASCII characters.
- Logging, `pprint`, `debug` flags and every `__main__` block: output only.
- `zktools/gists.py` is not part of this model.
- The rest of `zktools/rssdump.py`: feed download, file and directory creation, `download`, `hash_file`, JSON dumps and the feed walk. All of it is I/O. Only `_autoname`, the image extension and the IACR entry fields are modelled.
- Python exceptions are `Result` failures (`Results.Error`). The partial updates a failing `parse()` leaves behind (earlier `_urls[k]` and `data` entries) are not modelled: a failure gives no `Links` value.
- RssDump.Autoname: an absent (`None`) prefix or extension is written as the empty string, which Python also treats as absent.
- LinkDoc.GithubRewrites: its own contract states only that no `·` is left. The rewrite is its definition over `PyStr.Sub`, with `LinkDoc.GithubRewritesPlain` and `LinkDoc.GithubRewritesExample` beside it.
- LinkDoc.PodcastTitle: its own contract states only that the title does not grow. The rewrite is its definition over `PyStr.Sub`, with `LinkDoc.PodcastTitlePlain` and `LinkDoc.PodcastTitleExample` beside it.
- LinkDoc.AbbreviateZkp: states only that the title does not grow, plus the no-phrase and example lemmas.
- LinkDoc.StripAbChannel: states only that the URL does not grow, plus the no-parameter lemma.
- LinkDoc.Publication: its own contract states only the length bound and lower case; the exact removal of every `www.` is `LinkDoc.PublicationPieces`.
- LinkDoc.JoinPresent: its own contract states that every non-empty part occurs in the line; the exact layout is `LinkDoc.JoinPresentIsJoin`.
- TextDoc.FindLinks: its own contract states that every link found is in the pattern's language; that no link is skipped is `TextDoc.FindLinksLeftmost`.
- TextDoc.GetLinks: as `TextDoc.FindLinks`.
- MarkdownDoc.AsSimple: states that no link is left and that `]` does not grow, not the exact output text.
- LinkDoc.ParseLink: tests the URL with the corrected recogniser `UrlGrammar.Accepts`, where `$` ends the text. Python's `$` also matches before a final newline, so `Link("http://a.com\n/")` is accepted by Python and fails here with `InvalidUrl` (see "## Findings").
- LinkBatch.UrlsOf: with `sort=False`, `self._urls` is the caller's own list (linkdoc.py line 68), so `self._urls[k] = d_link['url']` (line 92) overwrites the caller's list in place. The model gives back a new list and does not model the aliasing.
- LineFormat.YoutubeFrom: its own contract states only the shape of a match; which reading is found is stated by `LineFormat.YoutubeFromPrefersCom`, `LineFormat.YoutubeFromFallsBack` and `LineFormat.YoutubeFromIffReading`.
- LineFormat.Zkfm: a podcast line without `http://` or `https://` is fetched as it is. Python's `requests.get` raises `MissingSchema` on it (zktools/txtdoc.py lines 39 and 85); the model gives the rewritten line.
- LineFormat.Default: with the scheme optional (the older `txtdoc.py`), a line without scheme or path, such as `Hello`, has its bare domain fetched (`LegacyTextDoc.BareDomainRead`). Python raises `MissingSchema` there (txtdoc.py lines 120, 145 and 67); the model gives `Hello | title | Hello`.
- TextDoc.Iacr: a line without scheme is fetched as it is, where Python raises `MissingSchema` (zktools/txtdoc.py lines 59 and 65). A `citation_*` meta tag without `content` makes `', '.join` raise `TypeError` (line 68). The scraper parameter gives only the `content` values, so the model cannot express either failure.
- LineFormat.ScrapeYtTitle: `scrape_yt_title` calls `r.json()` before it tests `r` (zktools/txtdoc.py line 78, txtdoc.py line 60), so an error reply whose body is not JSON raises. The parameter answers with a title or None, so the model gives `No Title` there.
- TextDoc.Reformat: fails only for a negative limit. The exceptions the fetches raise in Python are not modelled: the schemeless podcast and IACR lines, a meta tag without `content`, a non-JSON oEmbed error reply, and every network or parser error.
- LegacyTextDoc.Reformat: as `TextDoc.Reformat`. In addition, every line without scheme or path, such as a prose line `Hello`, raises `MissingSchema` in Python.
- Transcript: a block missing its stamp or body raises `AttributeError` in Python. Here it is a `NoTimestamp`/`NoBody` failure for the whole conversion.

## Findings

| source | as written | input that shows it | evidently intended | confidence | as-written member | corrected member |
|---|---|---|---|---|---|---|
| zktools/linkdoc.py:45 | the URL pattern ends in `$`, which Python also matches just before a final newline, so after `strip().rstrip('/')` a URL with an inner newline is accepted | `Link("http://a.com\n/")`: normalised to `http://a.com\n`, accepted | `$` as the end of the string (`\Z`): an accepted URL holds no whitespace | not executed | UrlGrammar.AsWrittenAcceptsNewline | UrlGrammar.AcceptedHasNoSpace |

The rest of the model uses the corrected recogniser. `UrlGrammar.AcceptsAsWritten` is the pattern with Python's `$`. `UrlGrammar.LinkAdmitsNewlineAsWritten` and `UrlGrammar.NewlineExample` exhibit the input. `UrlGrammar.Accepts` is the corrected recogniser.
