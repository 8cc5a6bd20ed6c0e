# Site checker: a verified model of its decision core

The site checker reads a list of dealer domains, one per line. It turns each
line into a bare host name: whitespace stripped, lower-cased, every `http://`
and `https://` removed, and `/` stripped from both ends. It then visits each
distinct host name once, in ascending order, and tries four candidate URLs
in a fixed order: `https://d`, `https://www.d`, `http://d`, `http://www.d`.

The first candidate whose response status lies in [200, 400) decides the
domain's record. The record says:

- which URL was tried and where the redirects ended;
- the status;
- whether the page text, lower-cased, contains one of ten Boats Group
  signatures;
- a label, which is `alive-boatsgroup` or `alive-not-boatsgroup`.

When no candidate answers in range, the record is the fixed "dead" record.
Its error column holds the message of the last exception, or
`No valid response` when no exception was raised.

The project has three modules:

- `PyString` (pystring.dfy) models the Python string operations the checker
  uses, on ASCII text: `strip()` and `strip(chars)`, `lower`,
  `replace(p, "")`, the substring test and the lexicographic order.
- `SortedSet` (sorted_set.dfy) models `sorted(set(xs))` as a strictly
  ascending list with the same elements.
- `CheckSites` (check_sites.dfy) models `normalize`, `try_variants`,
  `check_domain` and `main`'s loop. It also holds the record type and the
  record invariants.

Nothing is executed and there is no network. An HTTP GET becomes an
`Outcome`: either `Raised(message)`, an exception with its text, or
`Responded(status, finalUrl, text)`. `check_domain` receives the four
outcomes of its four candidates as a parameter. `main` receives a function
from a domain to those outcomes.

`try_variants`, `check_domain` and `main`'s loop build their results step by
step, so they are methods with loops: `TryVariants`, `CheckDomain` and
`Run`. Each is proved equal to a specification function: `Variants`, then
`Probe` (built from `Select`), then `Reports` over `Domains`. The
properties are proved as lemmas about those functions.

### Behaviour of the code worth knowing

- `replace` removes every occurrence of a scheme, not just a leading one. It
  runs after lower-casing, so `HTTPS://` is removed too.
- `strip("/")` acts on both ends.
- A response whose status is outside [200, 400), such as a 404 or a 500, does
  not stop the loop. The next candidate is tried. If no later candidate
  answers in range, the record is the dead one, with status `N/A`. Its
  error is the last exception's message, or `No valid response`.
  `SelectSkipsFailedAttempts` and `SelectDead` state this.
- `normalize` is not idempotent (`NormalizeNotIdempotent`). Removing schemes
  can join two pieces into a new scheme: `hthttp://tp://x` becomes
  `http://x`. Stripping `/` can expose whitespace: `/ a` becomes ` a`.
- `check_domain` normalises the domain it is given once more. So two
  distinct domains of `main`'s loop can produce records whose `domain`
  column is the same (`DomainColumnMayRepeat`). The `seen` set never skips
  a domain, because the loop runs over a set that is already sorted
  (`Run`).

## Model

| member | source | states |
|---|---|---|
| PyString.StripSpec | check_sites_url.py:29 | `strip` gives a result no longer than its input, with no strippable character at either end; a text without upper-case letters keeps that property |
| PyString.StripOfPadded | check_sites_url.py:29 | stripping a text surrounded only by strippable characters, itself not starting or ending with one, gives exactly that text |
| PyString.StripUnpadded | check_sites_url.py:29 | a text with no strippable character at its ends is left unchanged by `strip` |
| PyString.LowerChar | check_sites_url.py:29 | an upper-case ASCII letter maps to its lower-case letter; every other character is unchanged; the result is never upper case |
| PyString.LowerSpec | check_sites_url.py:29 | `lower` keeps the length, leaves no upper-case letter, is the identity exactly on texts without upper-case letters, and is idempotent |
| PyString.RemoveAllSpec | check_sites_url.py:29 | removing every occurrence of a pattern never lengthens the text and never introduces an upper-case letter |
| PyString.RemoveAllNoMatch | check_sites_url.py:29 | a text in which the pattern occurs nowhere is unchanged |
| PyString.RemoveAllLeftmost | check_sites_url.py:29 | occurrences go from left to right without overlap: in a + p + b, when p occurs nowhere before the end of a, the result is a followed by the removal applied to b |
| PyString.ContainsSpec | check_sites_url.py:52 | the substring test holds exactly when the pattern occurs at some position of the text |
| PyString.LessIrreflexive | check_sites_url.py:89 | no string is less than itself |
| PyString.LessTransitive | check_sites_url.py:89 | the string order `sorted` uses is transitive |
| PyString.LessTotal | check_sites_url.py:89 | of two different strings, one is less than the other |
| PyString.LessAsymmetric | check_sites_url.py:89 | no two strings are each less than the other |
| SortedSet.Insert | check_sites_url.py:89 | inserting into a strictly ascending list keeps it strictly ascending and adds exactly that element |
| SortedSet.SortedDistinct | check_sites_url.py:89 | the result is strictly ascending and holds exactly the elements of the input |
| SortedSet.StrictlySortedUnique | check_sites_url.py:89 | two strictly ascending lists with the same elements are equal, so the sorted set is determined by its elements |
| SortedSet.StrictlySortedCardinality | check_sites_url.py:89 | a strictly ascending list has as many entries as distinct elements |
| SortedSet.StrictlySortedDistinct | check_sites_url.py:89-92 | in a strictly ascending list, entries at different positions differ |
| SortedSet.StrictlySortedNext | check_sites_url.py:89-92 | walking the sorted set in order, the next domain is never in `seen`, and adding it makes `seen` the set of domains passed so far |
| CheckSites.NormalizeSpec | check_sites_url.py:28-29 | a normalised domain is no longer than the line, has no '/' at either end and no upper-case letter |
| CheckSites.NormalizeExample | check_sites_url.py:28-29 | "HTTPS://Example.COM/" normalises to "example.com" |
| CheckSites.NormalizeFixesClean | check_sites_url.py:28-29 | a lower-case host name with no whitespace or '/' at its ends and no scheme inside is its own normalisation |
| CheckSites.NormalizeIdempotentWhenClean | check_sites_url.py:28-29 | normalising twice agrees with normalising once when the first result holds no scheme and has no whitespace at its ends |
| CheckSites.NormalizeNotIdempotent | check_sites_url.py:28-29 | some input changes when normalised a second time: "hthttp://tp://x" and "/ a" |
| CheckSites.TryVariants | check_sites_url.py:31-40 | the candidates are https, https with www., http, http with www., in that order |
| CheckSites.VariantsDistinct | check_sites_url.py:31-40 | the four candidates are pairwise different and differ from the dead record's `tried_url` text |
| CheckSites.FirstLive | check_sites_url.py:46-50 | the candidate chosen is the first whose response has a status in [200, 400); there is none exactly when no response is in range |
| CheckSites.LastRaised | check_sites_url.py:66-67 | the error carried is the message of the last exception among the attempts; there is none exactly when none was raised |
| CheckSites.AnyContainedSpec | check_sites_url.py:51-52 | the page matches exactly when some signature occurs in it |
| CheckSites.CheckDomain | check_sites_url.py:42-80 | the record returned is the specification's record for the normalised domain and the outcomes, and it keeps the record invariants |
| CheckSites.SelectWellFormed | check_sites_url.py:53-80 | every record has label "dead" exactly when it is not alive, is matched only when alive, has a status in range and no error when alive, has the dead columns otherwise, and names the normalised domain |
| CheckSites.SelectFirstLive | check_sites_url.py:50-64 | when candidate k is the first in range, the record reports k's URL, final URL and status, no error, a match exactly when a signature occurs in the lower-cased body, and the label that follows from the match |
| CheckSites.SelectIgnoresLaterOutcomes | check_sites_url.py:50-64 | outcomes after the first response in range do not change the record |
| CheckSites.SelectSkipsFailedAttempts | check_sites_url.py:50-68 | an exception or an out-of-range response never becomes the reported candidate |
| CheckSites.SelectDead | check_sites_url.py:70-80 | with no response in range the record has the fixed dead columns, and its error is the last exception's message, or "No valid response" when none was raised |
| CheckSites.NormalizedLinesSpec | check_sites_url.py:87 | the collected domains are exactly the normalisations of the non-blank lines |
| CheckSites.DomainsSpec | check_sites_url.py:87-89 | the domains probed are strictly ascending, are exactly the normalisations of the non-blank lines, and are as many as the distinct normalised values |
| CheckSites.ReportsAt | check_sites_url.py:89-98 | one record per domain, the k-th being the record for the k-th domain |
| CheckSites.ReportsNext | check_sites_url.py:95-98 | the records after one more domain are the earlier records followed by that domain's record |
| CheckSites.ReportsWellFormed | check_sites_url.py:89-98 | every collected record names its domain normalised once more and keeps the record invariants |
| CheckSites.Run | check_sites_url.py:82-98 | the loop produces exactly the specification's records for the sorted distinct domains; the `seen` check never skips one, so there is one record per domain |
| CheckSites.DomainColumnMayRepeat | check_sites_url.py:43 | the lines "x" and "hthttp://tp://x" give the two domains "http://x" and "x", whose records both say "x" in the domain column |

## Left out

- The HTTP requests are not modelled. The request headers, the 10-second
  timeout and redirect following exist only through their result: an
  `Outcome` per candidate, given as a parameter. The model assumes each
  domain has exactly four outcomes, one per candidate.
- Only `requests.exceptions.RequestException` is modelled, as `Raised`.
  Its text is taken as given. Any other exception would end the program;
  that path is not modelled.
- Reading the input file and writing the CSV file are not modelled. The
  column names are kept as the constant `Columns`. The CSV text encoding of
  the values (`True`, `N/A`, integers) is not modelled; status codes are
  `Code(n)` or `NotAvailable`.
- The two progress messages printed per domain and the final message are
  not modelled. Neither is the input file's trailing newline on each line:
  `strip` removes it, and the model takes lines as strings.
- The imports `time`, `re` and `urlparse` are unused and have no
  counterpart.
- PyString.Lower: only ASCII letters are lower-cased. Python's Unicode case
  mapping of other letters, including those that change length, is not
  modelled.
- PyString.IsSpace: only the ASCII characters Python treats as whitespace
  are stripped. Unicode whitespace beyond ASCII is not.
- PyString.Less: it compares characters by code point, as Python does for
  `str`. Nothing beyond that order is modelled.
