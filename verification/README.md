# Libreddit instance catalog: Markdown table and instance picker

This project models, in Dafny, the two pure transformations that the
libreddit-instances repository applies to its catalog `instances.json`
once it has been loaded:

- **The Markdown table generator** (`generate-instances-markdown.py`). Each
  instance record becomes one six-cell row: address, network, version,
  location, Cloudflare mark and comment. A record may also be skipped. The
  address comes from the first key present among `url` (network "WWW"),
  `onion` ("Tor") and `i2p` ("I2P"). A record with none of these keys, or
  without `version`, is skipped. A missing `country` becomes "(n/a)" and a
  missing `description` becomes the empty comment. The Cloudflare cell is
  U+2705 exactly when `cloudflare` is present and truthy. The location is
  the country's flag, a space, and the country. The flag is each of the
  first two characters, upper-cased, shifted by 127397; for letters this is
  a pair of Regional Indicator Symbols. The location falls back to the
  bare country whenever `flag` raises. The table is a fixed two-line
  preamble followed by the rows in catalog order.
- **The instance picker** (`libreddit-instance-picker.py`), without its
  network fetch and console. It offers the sorted, distinct address keys:
  every key except `country`, `version` and `description`, so `cloudflare`
  is offered too. It also offers the sorted, distinct countries. It turns
  the user's two numbered answers into a key and an optional country, using
  Python's list indexing and its fallbacks. It then lists, in catalog order,
  the records that have a truthy value under that key and, when a country
  was chosen, that country.

Layout:

- `instances.dfy` (module `Instances`) holds the shared data model. A
  record is a map from key to `Value`, and a value is a string or a
  boolean. The module also defines Python's truthiness, `str()` and list
  indexing.
- `strings.dfy` (module `Strings`) holds Python's string order, `sorted`
  of a set, and split/join with the lemma that splitting undoes joining.
- `markdown.dfy` (module `Markdown`) models the flag, the location, row
  building, row formatting and the table. A parser reads a table back into
  rows, and is the independent partner of the writer.
- `picker.dfy` (module `Picker`) models key and country collection, answer
  resolution, the filter and one whole picker session.

Notes on behaviour the code shows, stated as lemmas:

- A record without `country` still goes through `flag`. The text "(n/a)"
  has no Python exception there. Its first two characters, '(' and 'n',
  shift to U+1F1CD and U+1F1F3. So the location cell is those two code
  points, a space, and "(n/a)" (`Markdown.AbsentCountryLocation`).
- An empty country gives the location " ". A one-character country gives
  the bare country.
- For a boolean `country`, the location is the bare `True`/`False`. The
  call `True.upper()` raises. The call `flag(False)` returns "", and adding
  a bool to a string then raises.
- The table reads back as its rows only when no free-text cell holds `|` or
  a line break. The generator does not escape either character.
  `Markdown.TableRoundTrip` therefore requires clean rows.

## Model

| member | source | states |
|---|---|---|
| Markdown.Indicator | generate-instances-markdown.py:64-70 | One character's indicator is its ASCII upper-case code point plus 127397. It fails exactly when that sum exceeds U+10FFFF, where `chr` raises. A letter always lands in U+1F1E6..U+1F1FF. |
| Markdown.Flag | generate-instances-markdown.py:52-70 | The empty code gives the empty flag. A one-character code fails. A longer code gives exactly two code points, `upper(c0)+127397` and `upper(c1)+127397`, and fails iff one of them is out of range. |
| Markdown.FlagOfLetters | generate-instances-markdown.py:52-70 | For a code starting with two ASCII letters in either case, the flag is two Regional Indicator Symbols. They read back as the upper-cased letters. |
| Markdown.UnflagThenFlag | generate-instances-markdown.py:52-70 | Every pair of Regional Indicator Symbols is the flag of the code it reads back as. With FlagOfLetters, `flag` is a bijection between upper-case letter pairs and indicator pairs. |
| Markdown.FlagIgnoresCaseAndTail | generate-instances-markdown.py:69-70 | `flag` depends only on the first two characters, upper-cased. Case and any characters after the second make no difference. |
| Markdown.Location | generate-instances-markdown.py:153-158 | The location cell always ends with the country's text. It is either that text alone or the flag, a space and the country. The flag form is used whenever `flag` succeeds on a string country; a boolean country always shows bare. |
| Markdown.LocationOfEmpty | generate-instances-markdown.py:66-67 | A present but empty country shows as a single space. |
| Markdown.LocationOfOneChar | generate-instances-markdown.py:154-158 | A one-character country makes `flag` raise, and the cell falls back to the bare country. |
| Markdown.LocationOfCode | generate-instances-markdown.py:153-156 | A two-letter code shows as five characters. The first two are its flag and read back as the code upper-cased. Then come a space and the code as written. |
| Markdown.AbsentCountryLocation | generate-instances-markdown.py:119 | A record without `country` gets the location U+1F1CD U+1F1F3, a space, and "(n/a)", because the default text goes through `flag` like any other. |
| Markdown.AddressOf | generate-instances-markdown.py:123-134 | The network follows the precedence `url` > `onion` > `i2p`. The chosen key is present. There is no network exactly when none of the three keys is present. |
| Markdown.BuildRow | generate-instances-markdown.py:115-142 | A record yields a row iff it has one of `url`, `onion`, `i2p` and also has `version`. Otherwise it is skipped. |
| Markdown.BuildRowCells | generate-instances-markdown.py:115-167 | In a built row, address and network follow the precedence. Version, country and description are copied, with the defaults "(n/a)" and "". The Cloudflare mark is set iff `cloudflare` is present and truthy. |
| Markdown.ParseRowLine | generate-instances-markdown.py:160-167 | The row is written by `Markdown.RowLine`, and `Markdown.FormatRow` adds the line break. A row line whose free-text cells hold no pipe character and no line break contains no line break. It parses back to the same six-cell row, so each row is written as one line of exactly six cells. |
| Markdown.Rows | generate-instances-markdown.py:114-167 | There are never more rows than records. |
| Markdown.RowsMembers | generate-instances-markdown.py:115-167 | A row appears in the table iff some record of the catalog builds it. |
| Markdown.RowsAppend | generate-instances-markdown.py:115-167 | Rows are produced record by record. The rows of a concatenation are the rows of each part, in input order. |
| Markdown.Table | generate-instances-markdown.py:169-171 | The output always starts with the two-line preamble. An empty catalog gives the preamble alone. |
| Markdown.TableAppend | generate-instances-markdown.py:169-171 | Appending a record to the catalog appends its formatted row, or nothing if it is skipped. The earlier output is unchanged. |
| Markdown.TableRoundTrip | generate-instances-markdown.py:113-171 | With clean cells, the table splits into the header line, the rule line, one line per kept record in order and a final empty line. Parsing it yields exactly the built rows. |
| Picker.KeySet | libreddit-instance-picker.py:14-23 | A key is collected iff some record has it and it is not `country`, `version` or `description`. |
| Picker.CountrySet | libreddit-instance-picker.py:15-19 | A country is collected iff some record has that `country` value. |
| Picker.AddressKeys | libreddit-instance-picker.py:14-24 | The offered keys are strictly ascending in Python's string order and are exactly the collected keys. |
| Picker.Countries | libreddit-instance-picker.py:15-25 | The offered countries are strictly ascending and are exactly the collected countries. |
| Picker.CloudflareIsOffered | libreddit-instance-picker.py:21-23 | `cloudflare` is offered as an address type whenever some record carries it. |
| Picker.ResolveKey | libreddit-instance-picker.py:31-36 | Answer n picks `keys[n-1]` under Python indexing, so 0 picks the last key and negative answers count from the end. A missing or out-of-range answer picks `keys[0]`. With no keys the script dies. |
| Picker.ResolveCountry | libreddit-instance-picker.py:43-51 | The answer "0", a non-number, or an out-of-range number all mean every country. Another number n picks `countries[n-1]` under Python indexing, so "00" picks the last country. |
| Picker.Filter | libreddit-instance-picker.py:70-73 | The listing is a subsequence of the catalog. A record is listed iff its chosen key holds a truthy value and, when a country was chosen, its `country` equals it. |
| Picker.FilterAppend | libreddit-instance-picker.py:70-73 | The listing of a concatenation is the listing of each part, in order. With Filter's contract this fixes the listing as the selected records in catalog order. |
| Picker.FilterIdempotent | libreddit-instance-picker.py:70-73 | Filtering the listing again changes nothing. |
| Picker.CountryNarrows | libreddit-instance-picker.py:71-72 | The listing for one country equals the all-countries listing filtered by that country. |
| Picker.Show | libreddit-instance-picker.py:70-73 | There is one `print` per listed record, in listing order, and print j writes `str` of record j's value under the chosen key. |
| Picker.Pick | libreddit-instance-picker.py:14-73 | For catalogs whose countries are all strings, a run dies iff no address key exists. Otherwise the key is what the key answer selects from the sorted address keys, and the country is what the country answer selects from the sorted countries. There is one `print` per listed record, each being `str` of its chosen value, and every listed record passes the test. |
| Strings.SortedDistinct | libreddit-instance-picker.py:24 | `sorted` of a set is strictly ascending and holds exactly the set's elements. |
| Strings.SortedUnique | libreddit-instance-picker.py:24-25 | Two strictly ascending lists with the same elements are equal. So the sorted keys and countries do not depend on the order in which the set is visited. |

## Left out

- File handling, argparse, the overwrite-mode choice, the Python version guard and the skip warning on stderr (generate-instances-markdown.py:49-50, 78-111, 139, 172). These are I/O and process plumbing. The model's output is the text the generator writes.
- JSON decoding and the `instances`/`updated` lookups. A catalog is given already decoded. Values other than strings and booleans (numbers, null, arrays, objects) are not modelled; the catalog schema uses only strings and booleans.
- The picker's HTTP fetch, console clears, prompts and printed menus (libreddit-instance-picker.py:1-12, 27-30, 38-42, 53-69, 76). These are network and UI. The picker's output is modelled as the list of lines it prints for the instances.
- Parsing the picker's answers. The key answer is given as the result of `int(...)`, or none when it raises. The country answer is given as "exactly 0" or the result of `int(...)`. `strip()` and `int()` themselves are not modelled.
- Markdown.Upper: only ASCII letters are upper-cased. Python's full Unicode `str.upper` can also change other letters, or the length of the code (`'ß'` becomes `"SS"`).
- Picker.Countries: it requires every present `country` to be a string, as the schema says. With a mix of strings and booleans, Python's `sorted` raises `TypeError`, and that is not modelled.
- Picker.CountrySet: it carries the same requirement as Picker.Countries.
- Picker.Pick: it carries the same requirement, so the crash at libreddit-instance-picker.py:25 on a catalog mixing string and boolean countries is not modelled.
- The CSV tokenizer, URL canonicaliser, endpoint prober and catalog assembler that produce `instances.json` are not part of this model. Their source is not among the modelled files.
