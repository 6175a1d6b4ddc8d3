# LoopNet spider, modelled in Dafny

The model covers what the LoopNet commercial real-estate spider does with a page once the page is fetched. Four modules model the spider (`Price`, `Blurb`, `CityStateZip`, `Spider`), beside two shared ones (`Wrappers` for Python's `None`, `Chars` for the character classes).

- **`Spider.Parse`** models `parse`, the search-page callback. It walks the `.listing-address` entries in order and skips every entry whose postal code is not exactly the target zip, a missing code included. It also skips every entry without exactly one link. It follows the one link of each remaining entry. Each skip comes with a warning, kept as a ghost output.
- **`CityStateZip`** models `CSZ_REGEX.search(text).groups()`, which splits `"City, ST 00000"` into city, state and zip. `re.search` tries the pattern `(\w[^,]*),\s+(\w+)\s+(\d+)` at each start position from the left. At any one start the match is determined, so `CutAt` computes it directly with greedy runs. `Fits` states the pattern as a language. `CutAt` is proved sound and complete against `Fits`, and `Search` is proved to return the leftmost fit.
- **`Blurb.Normalize`** models `re.sub(r'\s+', ' ', blurb).strip()`. It is proved equal to a separate definition, `' '.join(blurb.split())`: the blurb's words in order, with one space between neighbours.
- **`Price.ParseInt`** models `_parse_int`. It deletes every character other than a digit or `.`, reads the rest as an exact decimal, and rounds half to even, as Python 3's `round` does. `ParseFloat` accepts a cleaned text exactly when `float` does.
- **`Spider.ParseDetail`** models `parse_detail`, the detail-page callback. It combines the three pieces above, fills the record map field by field, and ends in one of three outcomes:
  - a record with exactly six keys;
  - a bare `return`, when the zip in the header is not the target;
  - a Python exception, named by which step raised it.

Two kinds of member are proved against a specification:
- The methods `Parse` and `ParseDetail` are proved against the functions `Follows` and `Detail`.
- The lemmas characterise those functions independently: by entry indices, by the pattern language, and by the words of the blurb.

Three behaviours of the code are easy to misread, and the model follows the code in each:
- **An unparsable or missing price.** With such a price, `parse_detail` raises and emits no record. `float` raises `ValueError` on a cleaned text that is not a number. A missing price reaches `PARSE_INT_REGEX.sub` as `None`, which raises `TypeError`. The model returns `Raised(PriceUnparsable)` or `Raised(PriceMissing)`.
- **Rounding.** `round` rounds half to even: `2.5` gives `2` and `3.5` gives `4`. `1250.75` gives `1251`, since `.75` is not a half.
- **Order of follows.** Follows come out in entry order, and the model proves that order.

## Model

| member | source | states |
|---|---|---|
| `Price.Clean` | loopnet_scraper/spiders/loopnet.py:59-62 | the cleaned price holds only digits and dots and is no longer than the input |
| `Price.CleanCounts` | loopnet_scraper/spiders/loopnet.py:59-62 | cleaning keeps every digit and dot as often as it occurs in the input, and no other character |
| `Price.CleanAppend` | loopnet_scraper/spiders/loopnet.py:59-62 | cleaning works piece by piece, so the kept characters stay in their original order |
| `Price.CleanKeepsKept` | loopnet_scraper/spiders/loopnet.py:59-62 | a text of digits and dots comes out of the cleanup unchanged |
| `Price.CleanIdempotent` | loopnet_scraper/spiders/loopnet.py:59-62 | cleaning twice gives what cleaning once gives |
| `Price.DigitsValue` | loopnet_scraper/spiders/loopnet.py:62 | a string of digits reads as a whole number below ten to the power of its length |
| `Price.DigitsValueAppend` | loopnet_scraper/spiders/loopnet.py:62 | the value of a digit string is the value of its head shifted by the length of its tail, plus the tail's value |
| `Price.ParseFloat` | loopnet_scraper/spiders/loopnet.py:62 | `float` accepts a cleaned text exactly when it has at most one dot and at least one digit |
| `Price.ParseFloatDigits` | loopnet_scraper/spiders/loopnet.py:62 | a non-empty string of digits reads as the whole number it spells |
| `Price.ParseFloatFraction` | loopnet_scraper/spiders/loopnet.py:62 | `whole.frac` reads as the digits of both over ten to the length of `frac` |
| `Price.RoundHalfEven` | loopnet_scraper/spiders/loopnet.py:62 | the result is within half of the exact value, and an exact half gives the even neighbour |
| `Price.RoundHalfEvenUnique` | loopnet_scraper/spiders/loopnet.py:62 | only one integer is a half-to-even rounding of a given value |
| `Price.ParseInt` | loopnet_scraper/spiders/loopnet.py:61-62 | `_parse_int` succeeds exactly when the cleaned text is a number, and its result is that number rounded half to even |
| `Price.Render` | loopnet_scraper/spiders/loopnet.py:62 | the decimal digits of a number spell that number, with no leading zero unless the number is zero |
| `Price.ParseIntRender` | loopnet_scraper/spiders/loopnet.py:59-62 | any text of dropped characters followed by a whole number's digits reads back as that number |
| `Price.ParseIntTenths` | loopnet_scraper/spiders/loopnet.py:62 | a digit, a dot and a digit read as tenths rounded half to even |
| `Price.ParseIntWholeDollars` | loopnet_scraper/spiders/loopnet.py:59-62 | `"$1,250,000"` gives `1250000` |
| `Price.ParseIntCents` | loopnet_scraper/spiders/loopnet.py:59-62 | `"$1,250.75"` gives `1251` |
| `Price.ParseIntHalfDown` | loopnet_scraper/spiders/loopnet.py:62 | `"2.5"` gives `2` |
| `Price.ParseIntHalfUp` | loopnet_scraper/spiders/loopnet.py:62 | `"3.5"` gives `4` |
| `Price.ParseIntNoDigits` | loopnet_scraper/spiders/loopnet.py:59-62 | `"N/A"` and `""` fail |
| `Price.ParseIntTwoDots` | loopnet_scraper/spiders/loopnet.py:62 | `"1.2.3"` fails |
| `Blurb.StripLeft` | loopnet_scraper/spiders/loopnet.py:45 | `lstrip` removes exactly the leading whitespace: it leaves a suffix that does not start with whitespace |
| `Blurb.StripRight` | loopnet_scraper/spiders/loopnet.py:45 | `rstrip` removes exactly the trailing whitespace: it leaves a prefix that does not end with whitespace |
| `Blurb.Strip` | loopnet_scraper/spiders/loopnet.py:45 | `strip` leaves a slice of the text with no whitespace at either end, and everything outside that slice is whitespace |
| `Blurb.StripLeftAppend` | loopnet_scraper/spiders/loopnet.py:45 | left-stripping a concatenation goes past the first part only when that part is all whitespace |
| `Blurb.StripRightAppend` | loopnet_scraper/spiders/loopnet.py:45 | right-stripping a concatenation goes past the last part only when that part is all whitespace |
| `Blurb.Collapse` | loopnet_scraper/spiders/loopnet.py:45 | each maximal whitespace run becomes one space, so the text never grows and is empty only when the input is; the lemmas `CollapseShape`, `CollapseNonSpace`, `CollapseAppend` and `CollapseRun` give its shape, content and run behaviour |
| `Blurb.CollapseShape` | loopnet_scraper/spiders/loopnet.py:45 | after the substitution the only whitespace is single spaces, never two in a row; the text is empty, or starts or ends with whitespace, exactly when the input is |
| `Blurb.CollapseNonSpace` | loopnet_scraper/spiders/loopnet.py:45 | the substitution keeps every non-whitespace character, in order |
| `Blurb.CollapseAppend` | loopnet_scraper/spiders/loopnet.py:45 | the substitution works piece by piece over any split that does not cut a whitespace run in two |
| `Blurb.CollapseRun` | loopnet_scraper/spiders/loopnet.py:45 | a whitespace run between a text that does not end in whitespace and one that does not start with it becomes exactly one space |
| `Blurb.StripCollapsed` | loopnet_scraper/spiders/loopnet.py:45 | stripping a collapsed text leaves no whitespace at either end and keeps it collapsed |
| `Blurb.Normalize` | loopnet_scraper/spiders/loopnet.py:45 | the normalised blurb has no whitespace at its ends, only single spaces inside, and the input's non-whitespace characters in order |
| `Blurb.NormalizeRun` | loopnet_scraper/spiders/loopnet.py:45 | a whitespace run between two non-whitespace characters leaves exactly one space between the two normalised sides |
| `Blurb.NormalizeStripLeft` | loopnet_scraper/spiders/loopnet.py:45 | leading whitespace does not change the normalised blurb |
| `Blurb.NormalizeWordThenSpaces` | loopnet_scraper/spiders/loopnet.py:45 | a word followed only by whitespace normalises to the word |
| `Blurb.Word` | loopnet_scraper/spiders/loopnet.py:45 | the first word of a text is its longest prefix without whitespace |
| `Blurb.WordsShape` | loopnet_scraper/spiders/loopnet.py:45 | every word of `split()` is non-empty and holds no whitespace |
| `Blurb.NormalizeIsJoinWords` | loopnet_scraper/spiders/loopnet.py:45 | the normalised blurb is `' '.join(blurb.split())`: the blurb's words in order, one space between neighbours and none at the ends |
| `Blurb.CollapseFixesCollapsed` | loopnet_scraper/spiders/loopnet.py:45 | the substitution leaves an already collapsed text unchanged |
| `Blurb.NormalizeFixesNormal` | loopnet_scraper/spiders/loopnet.py:45 | a blurb already in normal form is unchanged |
| `Blurb.NormalizeIdempotent` | loopnet_scraper/spiders/loopnet.py:45 | normalising twice gives what normalising once gives |
| `CityStateZip.SpanSound` | loopnet_scraper/spiders/loopnet.py:33 | a greedy repetition takes only characters of its class and stops at the end or at the first one outside it |
| `CityStateZip.SpanIs` | loopnet_scraper/spiders/loopnet.py:33 | a run of the class that ends at the end or before a character outside it is exactly what the repetition takes |
| `CityStateZip.CutAt` | loopnet_scraper/spiders/loopnet.py:33 | a match at a fixed start begins with a word character and puts its comma, state, gap and zip in that order, each non-empty, inside the text |
| `CityStateZip.CutAtSound` | loopnet_scraper/spiders/loopnet.py:33 | a match at a fixed start is a fit of the pattern whose zip is the whole digit run |
| `CityStateZip.CutAtComplete` | loopnet_scraper/spiders/loopnet.py:33 | wherever the pattern fits, a match is found there with the same city and state and a zip at least as long |
| `CityStateZip.CutAtExact` | loopnet_scraper/spiders/loopnet.py:33 | a fit whose zip is the whole digit run is exactly the match at that start |
| `CityStateZip.GroupsOf` | loopnet_scraper/spiders/loopnet.py:33 | the city starts with a word character and has no comma, the state is a non-empty word, the zip is non-empty digits |
| `CityStateZip.MatchAt` | loopnet_scraper/spiders/loopnet.py:33 | the groups at a fixed start exist exactly when there is a match there, and are well formed |
| `CityStateZip.SearchFrom` | loopnet_scraper/spiders/loopnet.py:40-41 | the search reports the first start at which the pattern matches, and fails only if it matches at no start |
| `CityStateZip.Search` | loopnet_scraper/spiders/loopnet.py:40-41 | the groups of a successful search have the pattern's shape |
| `CityStateZip.SearchLeftmost` | loopnet_scraper/spiders/loopnet.py:33-41 | the search fails exactly when the pattern fits nowhere; otherwise it starts where the leftmost fit starts, and its groups are the city, state and zip slices of a fit there whose zip is the whole digit run |
| `CityStateZip.SearchExample` | loopnet_scraper/spiders/loopnet.py:40-41 | `"San Francisco, CA 94107"` splits into `San Francisco`, `CA`, `94107` |
| `Spider.Parse` | loopnet_scraper/spiders/loopnet.py:18-31 | the loop yields exactly the follows of `Follows` and logs exactly the warnings of `Warnings` |
| `Spider.Follows` | loopnet_scraper/spiders/loopnet.py:19-31 | `parse` follows at most one link per entry, and each link it follows is the one link of an entry with the target postal code |
| `Spider.Warnings` | loopnet_scraper/spiders/loopnet.py:19-30 | `parse` logs at most one warning per entry, each a postal code other than the target or a link count other than one |
| `Spider.FollowsAppend` | loopnet_scraper/spiders/loopnet.py:19-31 | the follows of a page are those of its first part, then those of the rest |
| `Spider.PicksSnoc` | loopnet_scraper/spiders/loopnet.py:19-31 | one more entry adds its index and its link exactly when it is accepted |
| `Spider.FollowsAreAccepted` | loopnet_scraper/spiders/loopnet.py:19-31 | the follows are, in entry order, the single links of exactly the entries with the target postal code and one link |
| `Spider.FollowsOrWarnings` | loopnet_scraper/spiders/loopnet.py:19-31 | each entry gives one follow or one warning, never both |
| `Spider.SkipsOtherZip` | loopnet_scraper/spiders/loopnet.py:20-25 | an entry whose postal code is not the target, or is missing, adds no follow and one zip warning |
| `Spider.SkipsLinkCount` | loopnet_scraper/spiders/loopnet.py:26-30 | an entry with the target code but zero or several links adds no follow and one link-count warning |
| `Spider.FollowsSample` | loopnet_scraper/spiders/loopnet.py:18-31 | a five-entry page follows only its first and last links |
| `Spider.Record` | loopnet_scraper/spiders/loopnet.py:48-55 | the record has exactly the keys address, city, state, zip, blurb and price, holding the given values |
| `Spider.Detail` | loopnet_scraper/spiders/loopnet.py:35-57 | a record is emitted exactly when the city-state text matches with the target zip, the blurb is present and the price parses; it returns without a record exactly when the zip differs; an emitted record has the six keys and the target zip |
| `Spider.ParseDetail` | loopnet_scraper/spiders/loopnet.py:35-57 | the method, step by step, ends exactly as `Detail` says |
| `Spider.DetailFields` | loopnet_scraper/spiders/loopnet.py:40-55 | an emitted record holds the leftmost match's groups, the normalised blurb (which is its words joined by single spaces), the half-to-even price and the `h1` text |
| `Spider.DetailNoMatch` | loopnet_scraper/spiders/loopnet.py:40-41 | `parse_detail` raises at the split exactly when the pattern fits nowhere in the city-state text |
| `Spider.DetailSample` | loopnet_scraper/spiders/loopnet.py:35-57 | a San Francisco header with the target zip gives the full record |
| `Spider.DetailOtherZip` | loopnet_scraper/spiders/loopnet.py:42-43 | the same header for another zip gives no record |
| `Spider.DetailNoPrice` | loopnet_scraper/spiders/loopnet.py:46-47 | the same header with price `"N/A"` raises |

## Left out

- `start_requests` (building the search form request, and its log line) is I/O plumbing and is not modelled.
- Scrapy selectors, `extract_first` and `response.follow` are library calls. A page is given as data: entries with an optional postal code and their link targets, and a header as four optional texts. A follow is the link target itself, with no URL resolution.
- Logging has no effect on the output. `parse`'s warnings are a ghost output, and `parse_detail` logs nothing.
- `Price.ParseInt`: works on exact decimals. It does not capture binary floating point: precision lost on long digit strings, and the `OverflowError` from `round` when the text is beyond the float range.
- `Chars.IsWord`, `Chars.IsDigit`, `Chars.IsSpace`: `\w`, `\d`, `\s` and `str.strip` are taken over ASCII. Unicode letters and digits, `\x1c`–`\x1f`, `\x85`, `\xa0` and the other Unicode spaces are not modelled.
- The record is a map, so the key order of Python's dict is not modelled.
- `parse` and `parse_detail` are generators. The model gives their whole output at once, and an exception as a `Raised` outcome carrying the step that raised it rather than the Python exception object.
