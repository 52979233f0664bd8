# Cloudflare WARP endpoint ping test, modelled in Dafny

The script `Ping-test-Cloudflare-WARP-endpoints.py` pings thirty fixed
Cloudflare WARP endpoint addresses ten times each. It reads the reply time
out of each ping's output, averages the successful replies per address,
sorts the averages and shows the three fastest addresses, or says that no
address answered. This project models the deterministic part of that script
and proves what it computes:

- `decimal.dfy` (module `Decimal`): the decimal spelling `f"{i}"` of a number
  and the value `int(...)` reads back from a run of ASCII digits.
- `addresses.dfy` (module `Addresses`): `get_ips`, as a method with the
  source's two appending loops.
- `latency.dfy` (module `Latency`): the reply-time parse in `ping_ip`. The
  regular expression search `re.search(r'[=<]\s*(\d+)\s*(ms|...)', output,
  re.IGNORECASE)` followed by `int` is a scan over the text. That scan is
  proved equal to a declarative description of a leftmost regular-expression
  match (`MatchSpan`, `MatchStartsAt`).
- `sampling.dfy` (module `Sampling`): the ping facility as an injected `Prober`.
  It also holds the inner ten-ping loop and the outer loop over addresses,
  both as methods with loop invariants. The exact mean is a `real`, and the
  `results` dict is a sequence of items in insertion order with Python's
  assignment semantics (`Put`).
- `ranking.dfy` (module `Ranking`): `sorted(results.items(), key=...)` as a
  stable insertion sort, proved to be the only stable sort of its input, and
  the `[:3]` slice.
- `pingtest.dfy` (module `PingTest`): `main` without its console and window
  output. It returns the address list and a `Report` (the ranked addresses,
  or "no accessible IPs").

The prober is a function `probe(a, t)`. It gives the text printed by the
`t`-th ping of the `a`-th address, or `None` when running `ping` raised.
Outcomes are indexed by position, so a repeated address would get its own
outcomes. A ghost trace records each ping the loops send, so "ten pings per
address, in order" is a postcondition.

The second unit alternative on line 44 is modelled exactly as the source text
spells it: the four characters U+2568 U+255D U+2564 U+0411. Those four
characters are what the UTF-8 bytes of the Russian "мс" become when read as
code page 866. The em dash on line 96 shows the same transformation. The
model therefore matches that literal string, and not the word "мс".

## Model

| member | source | states |
|---|---|---|
| `Decimal.Show` | Ping-test-Cloudflare-WARP-endpoints.py:13 | the spelling `f"{i}"` is a non-empty run of digits with no leading zero, one digit exactly below ten |
| `Decimal.ValueOfShow` | Ping-test-Cloudflare-WARP-endpoints.py:47 | reading a number's decimal spelling back with `int` gives the number |
| `Decimal.ShowInjective` | Ping-test-Cloudflare-WARP-endpoints.py:12-17 | different numbers give different spellings |
| `Addresses.GetIps` | Ping-test-Cloudflare-WARP-endpoints.py:7-19 | exactly 30 addresses: 162.159.192.1 … 162.159.192.20 and then 162.159.195.1 … 162.159.195.10, with no address repeated |
| `Addresses.DistinctAddresses` | Ping-test-Cloudflare-WARP-endpoints.py:11-17 | any two positions of that list hold different addresses, across both ranges |
| `Latency.RunEnd` | Ping-test-Cloudflare-WARP-endpoints.py:44 | greedy `\s*` / `\d+`: the end of the longest run of one character class |
| `Latency.MatchSpanUnique` | Ping-test-Cloudflare-WARP-endpoints.py:44 | at one position the pattern has at most one match; its spaces, digits and spaces are longest runs, which is what the scan computes |
| `Latency.MatchAtComplete` | Ping-test-Cloudflare-WARP-endpoints.py:44 | the scan finds a value at a position exactly when the pattern matches there |
| `Latency.ParseLatencyLeftmost` | Ping-test-Cloudflare-WARP-endpoints.py:44-48 | if the leftmost match has digit group d, the parse returns `int(d)` |
| `Latency.ParseLatencySound` | Ping-test-Cloudflare-WARP-endpoints.py:44-48 | every value the parse returns is the digit group of the leftmost match |
| `Latency.ParseLatencyNone` | Ping-test-Cloudflare-WARP-endpoints.py:44-50 | the parse returns None exactly when the pattern occurs nowhere in the text |
| `Latency.NoMarkerNoLatency` | Ping-test-Cloudflare-WARP-endpoints.py:44-50 | text with no `=` and no `<` gives None |
| `Latency.PingIpSome` | Ping-test-Cloudflare-WARP-endpoints.py:29-53 | `ping_ip` gives a latency exactly when ping ran and its output contains a match; a raising run gives None |
| `Latency.SearchSkips` | Ping-test-Cloudflare-WARP-endpoints.py:44 | the search moves past text that holds no `=` or `<` |
| `Latency.EnglishReply` | Ping-test-Cloudflare-WARP-endpoints.py:44-48 | `bytes=32 time=23ms` gives 23: the first `=` has no unit after its digits, so the leftmost match is the second |
| `Latency.SubMillisecondReply` | Ping-test-Cloudflare-WARP-endpoints.py:44-48 | `time<1MS` gives 1: `<` is a marker and the unit is matched without regard to case |
| `Latency.TimedOut` | Ping-test-Cloudflare-WARP-endpoints.py:49-50 | "Request timed out." gives None |
| `Sampling.SuccessesAppend` | Ping-test-Cloudflare-WARP-endpoints.py:67-74 | the kept latencies of two runs of attempts are those of the first followed by those of the second: probe order is kept, and failures add nothing |
| `Sampling.SuccessesMembers` | Ping-test-Cloudflare-WARP-endpoints.py:70-72 | a latency is kept exactly when some attempt returned it |
| `Sampling.SuccessesEmpty` | Ping-test-Cloudflare-WARP-endpoints.py:76-77 | nothing is kept exactly when every attempt failed |
| `Sampling.LatenciesEmpty` | Ping-test-Cloudflare-WARP-endpoints.py:67-77 | an address keeps no latency exactly when all ten of its pings failed |
| `Sampling.MeanBetween` | Ping-test-Cloudflare-WARP-endpoints.py:78 | the mean lies between the smallest and the largest successful sample |
| `Sampling.MeanOfOne` | Ping-test-Cloudflare-WARP-endpoints.py:77-79 | one successful sample L gives the average L |
| `Sampling.MeanExample` | Ping-test-Cloudflare-WARP-endpoints.py:78 | samples 10, 20, 30 give the average 20 |
| `Sampling.IndexOf` | Ping-test-Cloudflare-WARP-endpoints.py:79 | the dict lookup: the position of the first item with key ip, or the length when ip is absent |
| `Sampling.Put` | Ping-test-Cloudflare-WARP-endpoints.py:79 | `results[ip] = avg`: a new key is appended last; an existing key keeps its place and only its value changes |
| `Sampling.PutKeys` | Ping-test-Cloudflare-WARP-endpoints.py:79 | the keys after the assignment are the old keys, plus ip at the end when it was new |
| `Sampling.PutDistinct` | Ping-test-Cloudflare-WARP-endpoints.py:79 | the assignment keeps the keys distinct |
| `Sampling.PutAt` | Ping-test-Cloudflare-WARP-endpoints.py:79 | after the assignment the item under ip holds the new average, and every other item is unchanged |
| `Sampling.ScheduleAt` | Ping-test-Cloudflare-WARP-endpoints.py:63-68 | a sweep over n addresses sends 10·n pings, and ping k is attempt k mod 10 of address k div 10 |
| `Sampling.CollectLatencies` | Ping-test-Cloudflare-WARP-endpoints.py:65-74 | the inner loop pings ten times and returns the successful latencies in probe order |
| `Sampling.Sweep` | Ping-test-Cloudflare-WARP-endpoints.py:59-82 | the outer loop builds `results`, address after address, each pinged exactly ten times |
| `Sampling.HasSuccessSplit` | Ping-test-Cloudflare-WARP-endpoints.py:76-82 | an address succeeded somewhere in the list exactly when it succeeded in the list without its last item, or is that last item and succeeded there |
| `Sampling.ResultsKeys` | Ping-test-Cloudflare-WARP-endpoints.py:76-82 | an address has an entry exactly when at least one of its pings succeeded |
| `Sampling.ResultsDistinct` | Ping-test-Cloudflare-WARP-endpoints.py:59 | `results` never holds an address twice |
| `Sampling.ResultsEmpty` | Ping-test-Cloudflare-WARP-endpoints.py:76-82 | `results` is empty exactly when no ping to any address succeeded |
| `Sampling.ResultsValue` | Ping-test-Cloudflare-WARP-endpoints.py:77-79 | each stored average is the mean of the successful samples only, from the last successful occurrence of that address |
| `Sampling.ResultsOfDistinct` | Ping-test-Cloudflare-WARP-endpoints.py:63-82 | for distinct addresses, `results` lists the successful addresses in input order, each with its mean |
| `Ranking.InsertMultiset` | Ping-test-Cloudflare-WARP-endpoints.py:87 | an insertion step adds its entry and nothing else |
| `Ranking.InsertSorted` | Ping-test-Cloudflare-WARP-endpoints.py:87 | an insertion step keeps the order by average |
| `Ranking.InsertStable` | Ping-test-Cloudflare-WARP-endpoints.py:87 | an inserted entry goes before the entries it ties with, and those keep their order |
| `Ranking.SortByAvgPermutes` | Ping-test-Cloudflare-WARP-endpoints.py:87 | the sorted list is a permutation of the dict's items |
| `Ranking.SortByAvgSorted` | Ping-test-Cloudflare-WARP-endpoints.py:87 | the sorted list ascends by average |
| `Ranking.SortByAvgStable` | Ping-test-Cloudflare-WARP-endpoints.py:87 | entries with equal averages keep their insertion order |
| `Ranking.StableSortUnique` | Ping-test-Cloudflare-WARP-endpoints.py:87 | two lists that ascend by average and keep every group of ties in the same order are equal |
| `Ranking.SortByAvgIsTheStableSort` | Ping-test-Cloudflare-WARP-endpoints.py:87 | any stable sort by average, such as Python's `sorted`, gives exactly this model's sort |
| `Ranking.WithAvgOfPrefix` | Ping-test-Cloudflare-WARP-endpoints.py:90 | the tied entries within a prefix are a prefix of all the tied entries |
| `Ranking.Rank` | Ping-test-Cloudflare-WARP-endpoints.py:87-90 | `top_3` has min(3, number of entries) entries, never padded, ascending. It is drawn from the results, no omitted entry is faster, and ties keep insertion order |
| `Ranking.RankTwoSuccesses` | Ping-test-Cloudflare-WARP-endpoints.py:87-90 | with only B (50) and D (10) recorded, `top_3` is D then B, length 2 |
| `Ranking.RankTie` | Ping-test-Cloudflare-WARP-endpoints.py:87-90 | two equal averages appear in their recorded order |
| `PingTest.Summary` | Ping-test-Cloudflare-WARP-endpoints.py:93-98 | the "no accessible IPs" outcome is chosen exactly when `top_3` is empty |
| `PingTest.AllFailedIff` | Ping-test-Cloudflare-WARP-endpoints.py:76-98 | `top_3` is empty exactly when every ping to every address failed |
| `PingTest.NoLatenciesIff` | Ping-test-Cloudflare-WARP-endpoints.py:65-75 | no address keeps a latency exactly when every ping to every address failed |
| `PingTest.RunPingTest` | Ping-test-Cloudflare-WARP-endpoints.py:55-98 | the whole run: the WARP address list, ten pings per address in order, and the report built from `top_3`. It reports "no accessible IPs" exactly when all pings failed, and otherwise lists 1–3 ascending entries, each an address paired with the mean of its successful pings |

## Left out

- Running `ping -n 1 -w 1000` through `subprocess.run`, decoding its output
  as code page 866 with `errors='ignore'`, and the one-second timeout (lines
  26-40). These are operating-system calls. They become the `Prober`
  parameter, which supplies the decoded output text, or None for a run that
  raised.
- The broad `except Exception` (lines 51-53) appears only as the prober's
  None. Inside the parse, `int` on more than 4300 digits raises `ValueError`
  in Python 3.11 and later, which the script would turn into None. The model
  has no digit limit and returns the value.
- `print` calls, the Tkinter window and the text of the popup message,
  including `:.2f` rounding (lines 56, 64, 71-74, 80-84, 92-105). These are
  user-interface output. The model stops at the `Report` value.
- The float that `statistics.mean` returns. The mean is exact (a `real`), so
  two different exact means are never merged into one float and then
  treated as tied.
- Unicode behaviour of `\s`, `\d` and `re.IGNORECASE`. `\s` is ASCII
  whitespace (including U+001C to U+001F), and `\d` is an ASCII digit. Case
  folding is simple lower-casing of ASCII and basic Cyrillic capitals. The
  special folds (long s, Kelvin sign) and non-ASCII digits and spaces are not
  modelled.
- The second regex group `(ms|...)` is never read by the script. The model
  checks only that one of the two units is present.
- A general description of the tool allows configurable sample counts and
  result sizes, a configuration error for an empty address list, a sample
  count in each statistic, and an independent entry for each duplicated
  address. The script has none of these. It uses the constants 10 and 3,
  stores only the average, and lets a repeated address overwrite its
  earlier value in the dict. The model follows the script.
