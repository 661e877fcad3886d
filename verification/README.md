# Profile stats card: uptime text and placeholder patch

The repository's script fills a "profile stats card" SVG with numbers about a
GitHub user. Two steps in it are pure text work, and this project models
and proves those two:

- **Uptime string** (`daily_readme`). The elapsed interval since a birthday is
  given as years, months and days. It is rendered as
  `"<y> year[s], <m> month[s], <d> day[s]"`. A unit takes the plural `s`
  exactly when its number is not 1.
- **Placeholder patch** (`svg_overwrite`). The card's `tspan` elements are
  taken in document order. The texts at positions 27, 49, 50, 51, 52, 54 and 55
  are replaced by `"<Label>: <value>"` lines. Every other element is left alone.
  There are seven slots, not six: besides uptime, repos, commits, stars,
  followers and lines of code, slot 50 holds "Contributed". The model follows
  the code.

Modules:

- `Results` (results.dfy): `Option` and `Result`.
- `Decimal` (decimal.dfy): Python's `str` of an `int` below the
  interpreter's digit limit (`NatToString`,
  `IntToString`). It has a parser as its partner, and the two are proved
  inverse in both directions.
- `Uptime` (uptime.dfy): `UptimeString`, and its partner `ParseUptime`. The
  proofs show that rendering is a bijection onto what the parser accepts.
- `SvgPatch` (svg_patch.dfy): `SvgOverwrite` over a `Document`, which is a
  `seq<Tspan>`. A `Tspan` keeps only the text of its first child node;
  `None` means the element has no child. The patch returns a `Result`. It
  fails with `IndexOutOfRange(k)` when the list has no position `k`. It fails
  with `NoFirstChild(k)` when the element at `k` has no child node (in
  `svg_overwrite` the element's `firstChild` is then `None`, and setting
  `.data` raises). The error reported is the first failing slot in the order
  `svg_overwrite` writes them. A failure produces no document, so nothing is
  written to disk. `svg_overwrite` also changes slots in memory before it
  raises, but that state is thrown away.

The interval components are Python `int`s from relativedelta, so they are
modelled as `int`, not `nat`; a birthday in the future gives negative
components, and Python then renders a leading `-`, as `IntToString` does.
The repository, star, follower and commit counts are `int`s read from the
GraphQL responses (update_stats.py:52, 72-73, 91). Nothing in the script
produces the contributed count or the three lines-of-code values; the model
assumes they are `int`s too, possibly negative. Each statistic is a named field of `Stats`, and inside the model
every statistic is read by its field name. `Stats` is still an ordinary
constructor with positional arguments, and seven of its fields are `int`, so
a caller can swap two of them by position. A caller should build it with
named arguments (`Stats(repos := …, commits := …, …)`) to rule that out.

## Model

| member | source | states |
|---|---|---|
| Decimal.NatToString | update_stats.py:16-20 | A natural is rendered as a non-empty run of decimal digits with no leading zero, and the text is "0" exactly for zero |
| Decimal.IntToString | update_stats.py:101-107 | An int is rendered as Python's `str` renders it (below the interpreter's digit limit): a leading '-' exactly for negatives, then the canonical digits of the magnitude, never "-0" |
| Decimal.DigitsValueOfNatToString | update_stats.py:16-20 | Reading the rendered digits in base ten gives the number back |
| Decimal.NatToStringOfDigitsValue | update_stats.py:16-20 | Every canonical digit string is the rendering of its own value (the converse direction) |
| Decimal.NatToStringInjective | update_stats.py:16-20 | Distinct numbers are rendered as distinct texts |
| Decimal.NatPrefixRoundTrip | update_stats.py:16-20 | A rendered natural followed by a non-digit parses back to the number and the rest of the text |
| Decimal.NatPrefixSound | update_stats.py:16-20 | Whatever the natural parser accepts is a rendered natural followed by text that does not start with a digit |
| Decimal.IntPrefixRoundTrip | update_stats.py:101-107 | A rendered int, negative ones included, followed by a non-digit parses back to the int and the rest of the text |
| Decimal.IntPrefixSound | update_stats.py:101-107 | Whatever the int parser accepts is a rendered int followed by text that does not start with a digit |
| Uptime.PluralIffNotOne | update_stats.py:17-19 | A unit phrase ends in 's' if and only if its count is not 1, so 0 is plural and 1 is singular |
| Uptime.UnitRoundTrip | update_stats.py:16-20 | A phrase `<n> <unit>[s]` reads back as n and leaves the following text, with the suffix n calls for |
| Uptime.UnitSound | update_stats.py:16-20 | The phrase parser accepts only a correctly suffixed `<n> <unit>[s]` phrase followed by the rest |
| Uptime.MonthsDaysRoundTrip | update_stats.py:18-19 | The months and days part `<m> month[s], <d> day[s]` reads back as (m, d) |
| Uptime.MonthsDaysSound | update_stats.py:18-19 | Any text read as (m, d) is exactly the months and days part for m and d |
| Uptime.UptimeRoundTrip | update_stats.py:16-20 | The uptime string of any (years, months, days) reads back as that interval: years, then months, then days, joined by ", " |
| Uptime.UptimeSound | update_stats.py:16-20 | The only strings the uptime parser accepts are uptime strings of the interval it returns |
| Uptime.UptimeParseIff | update_stats.py:16-20 | A string parses as an interval if and only if it is that interval's uptime string |
| Uptime.UptimeInjective | update_stats.py:16-20 | Distinct intervals always give distinct uptime strings |
| Uptime.UptimeExample | update_stats.py:16-20 | 24 years, 5 months and 14 days render as "24 years, 5 months, 14 days" |
| Uptime.UptimeSingularExample | update_stats.py:16-20 | 1 year, 0 months and 1 day render as "1 year, 0 months, 1 day" |
| SvgPatch.Writes | update_stats.py:101-107 | The patch makes seven writes, and the j-th goes to the j-th slot of 27, 49, 50, 51, 52, 54, 55 |
| SvgPatch.ApplyWrites | update_stats.py:101-107 | A sequence of writes succeeds iff every target position exists and has a child node, and on success keeps the list's length |
| SvgPatch.ApplyWritesFrame | update_stats.py:101-107 | After successful writes, every position no write targets keeps its element, and each targeted position holds the text of the last write to it |
| SvgPatch.ApplyWritesFailure | update_stats.py:101-107 | Failing writes report the error of the first write whose position is missing (out of range) or has no child node |
| SvgPatch.SvgOverwrite | update_stats.py:98-107 | The patch succeeds iff all seven slots exist and have a child node, and always fails on 55 or fewer elements. A failure names the first bad slot in write order, as out of range or without a child. A success keeps the length and every element outside the slots |
| SvgPatch.TargetedIsSlot | update_stats.py:101-107 | A write list addressed slot by slot touches exactly the slot positions |
| SvgPatch.SlotWritesAreLast | update_stats.py:101-107 | The slot positions strictly increase, so no slot is written twice and no write of the patch is overwritten by a later one |
| SvgPatch.SlotTexts | update_stats.py:101-107 | After a successful patch, each slot holds exactly the text of its write |
| SvgPatch.PlaceholderTexts | update_stats.py:101-107 | Slots 27, 49, 50, 51, 52 and 54 hold "Uptime: ", "Repos: ", "Contributed: ", "Commits: ", "Stars: " and "Followers: " plus the value. Slot 55 holds "Lines of Code: <total> (<added>++, <deleted>--)" |
| SvgPatch.GapUntouched | update_stats.py:105-106 | Position 53, between the stars and followers slots, keeps its original element |
| SvgPatch.PatchIdempotent | update_stats.py:101-107 | Patching the patched list again with the same statistics gives the same list, because slots are overwritten, not appended to |
| SvgPatch.FollowersExample | update_stats.py:106 | With 3 followers the followers slot reads "Followers: 3" |

## Left out

- GraphQL requests, the HTTP status check and JSON field extraction (`fetch_github_data`, `get_total_commits`, `get_total_repos_and_stars`, `get_total_followers`): these are network I/O against an external API. Their results enter the model as the fields of `Stats`.
- Reading `ACCESS_TOKEN` and `USER_NAME` from the environment: this is ambient process state.
- The `relativedelta` calendar decomposition: the library's calendar rules are not part of this model. Years, months and days are inputs (`Uptime.Delta`), and the clock is not read.
- XML parsing, `getElementsByTagName`, serialisation with `toxml()` and the file write: these belong to a foreign library and to file I/O. The document is abstracted to the ordered list of its `tspan` first-child texts. A first child that is an element node rather than text is not distinguished from a text child.
- The `__main__` block: `06` at update_stats.py:116 is a leading-zero decimal literal, a compile-time `SyntaxError` in Python 3, and under Python 2 the f-strings (update_stats.py:8, 32, 101-107) fail to compile. So the file compiles under no Python version as written, and neither function can run. The model describes `daily_readme` and `svg_overwrite` as they behave once line 116 compiles (with `6` for `06`). The block also calls the ten-parameter `svg_overwrite` with six arguments in the wrong order. No entry point is modelled.
- SvgPatch.Stats: the fields `contributed`, `locAdded`, `locDeleted` and `locTotal` have no producer in the script, and the call at update_stats.py:125 omits them. They are assumed to be `int`s. An f-string renders any object through its own `__format__`, and other types are not modelled.
- The success message printed to standard output: this is console I/O.
- Decimal.IntToString: ignores Python's limit on the number of digits an int may be converted to (4300 by default in recent interpreters). Above that limit `str`, `format` and f-strings raise `ValueError`, so `daily_readme` or `svg_overwrite` fails where the model renders the digits and `SvgPatch.SvgOverwrite` succeeds. The statistics and intervals are far below that limit.
