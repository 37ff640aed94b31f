# Worksite Secure API — statistics core

This project models the core of the Worksite Secure API: a demonstration
backend that tracks security on construction sites. It keeps two in-memory
stores, a list of sites and a list of incidents reported against those
sites. It is seeded with three sites and three incidents when the process
starts. The one piece of logic over the stores is `compute_stats`. The
dashboard's statistics endpoint returns it, and the health endpoint passes
on two of its numbers. It reports:

- the number of sites;
- the number of incidents;
- the percentage of incidents whose lower-cased status is `résolu`, rounded
  by Python's `round`, and 0 when there are no incidents;
- the number of incidents whose lower-cased severity is `critique`.

The model has three modules:

- `TextCase` (`text_case.dfy`) models Python's `str.lower` on ASCII and
  Latin-1 letters. It proves which texts lower-case to a given word.
- `Rounding` (`rounding.dfy`) models `round(n / d)` on the exact quotient
  as round-half-to-even. It proves that the result is the unique nearest
  integer (ties go to the even one), that it is monotone, and that it
  stays within 0..100 for a percentage.
- `Worksite` (`worksite.dfy`) holds the `Site` and `Incident` records, the
  seed stores, `Count` (main.py's `sum(1 for … if …)`),
  `ResolvedPercentage`, `ComputeStats` and `GetStatus`. Its lemmas cover
  case-insensitive matching and the seed data.

The stores are immutable sequences, because nothing in the program changes
them. `ComputeStats` is a function of the two sequences, so it cannot
change either store.

Three facts about `main.py` shape the model:

- `main.py` compares statuses with `résolu` and severities with `critique`.
  `OpenExamples` and `CriticalExamples` prove that `Resolved` and
  `Critical` do not count.
- Python's `round` rounds half to even, so 1 resolved incident out of 8
  gives 12.
- `main.py` has no operation that creates, updates or filters records. Its
  list routes return the stores as they are.

## Model

| member | source | states |
|---|---|---|
| `TextCase.Lower` | main.py:125 | `.lower()` keeps the length of the text and lower-cases each character on its own, ASCII and Latin-1 capitals to their small letters, everything else unchanged |
| `TextCase.LowerChar` | main.py:125 | `.lower()` of one character: a capital A-Z or U+00C0-U+00DE other than U+00D7 becomes the small letter 32 code points above it, and every other character is kept |
| `TextCase.UpperChar` | main.py:125 | each small letter a-z or U+00E0-U+00FE other than U+00F7 has a capital that `.lower()` maps back to it |
| `TextCase.LowerCharTo` | main.py:125 | a character lower-cases to a small letter exactly when it is that letter or its capital |
| `TextCase.LowerIdempotent` | main.py:125 | lower-casing an already lower-cased text changes nothing |
| `TextCase.LowerMatches` | main.py:125-129 | a text lower-cases to an all-small word exactly when it has the word's length and each character is the word's letter in either case (both directions) |
| `Rounding.RoundHalfEven` | main.py:126 | `round(n / d)` lies within one half of the exact quotient, and exactly one half away only when it is even |
| `Rounding.RoundHalfEvenUnique` | main.py:126 | any integer with that property is `RoundHalfEven(n, d)`, so the rounding is exactly Python's round-half-to-even of the rational `n / d` (both directions) |
| `Rounding.RoundMonotone` | main.py:126 | a larger numerator never rounds to a smaller result |
| `Rounding.RoundExact` | main.py:126 | an exact quotient rounds to itself |
| `Rounding.RoundPercentBounds` | main.py:125-126 | `round(m * 100 / d)` for `m <= d` is at most 100 |
| `Worksite.IsResolved` | main.py:125 | the filter `i.status.lower() == "résolu"` holds exactly when the status spells `résolu` with each letter in either case |
| `Worksite.IsCritical` | main.py:129 | the filter `i.severity.lower() == "critique"` holds exactly when the severity spells `critique` with each letter in either case |
| `Worksite.Count` | main.py:125-130 | `sum(1 for x in xs if p(x))` is at most the list length, is 0 exactly when no element satisfies `p`, and equals the length exactly when every element does |
| `Worksite.CountAppend` | main.py:125-130 | the count over two lists joined is the sum of their counts, which with the one-element case fixes every count |
| `Worksite.ResolvedPercentage` | main.py:122-126 | 0 with no incidents and no division then; otherwise the round-half-to-even of 100 × resolved / total; always in 0..100; 0 when none is resolved, 100 when all are |
| `Worksite.ComputeStats` | main.py:118-137 | `total_sites` and `total_incidents` are the lengths of the stores; `resolved_percentage` is as above; `critical_incidents` counts the incidents whose lower-cased severity is `critique` and never exceeds `total_incidents` |
| `Worksite.GetStatus` | main.py:152-165 | the health report is app `Worksite Secure`, status `OK`, version `0.1.0`, and the site and incident counts of the statistics, which are the lengths of the two stores |
| `Worksite.StatsIgnoreCase` | main.py:125-130 | incidents whose statuses and severities differ only in letter case give identical statistics |
| `Worksite.ResolvedSpellings` | main.py:125 | a status counts as resolved exactly when it is `résolu` with each letter in either case, and no other status does |
| `Worksite.CriticalSpellings` | main.py:128-130 | a severity counts as critical exactly when it is `critique` with each letter in either case |
| `Worksite.ResolvedExamples` | main.py:109 | `Résolu`, `résolu` and `RÉSOLU` all count as resolved |
| `Worksite.OpenExamples` | main.py:91-100 | `Nouveau`, `En cours`, the unaccented `RESOLU` and the English `Resolved` do not count as resolved |
| `Worksite.CriticalExamples` | main.py:128-130 | `Critique` and `CRITIQUE` count as critical; `Moyen`, `Mineur` and the English `Critical` do not |
| `Worksite.OneInEight` | main.py:126 | with 8 incidents of which 1 is resolved, 12.5 percent rounds to the even 12 |
| `Worksite.SeedStatusesCount` | main.py:84-112 | of the seeded statuses `Nouveau`, `En cours` and `Résolu`, exactly one is resolved |
| `Worksite.SeedSeveritiesCount` | main.py:84-112 | of the seeded severities `Moyen`, `Critique` and `Mineur`, exactly one is critical |
| `Worksite.SeedStats` | main.py:60-137 | on the seed stores the statistics are 3 sites, 3 incidents, 33 percent resolved and 1 critical incident, and the health report shows 3 and 3 |

## Left out

- Python float division in `resolved * 100 / total`: the model rounds the exact rational. The float quotient could only round differently from the exact one if the store held vastly more incidents than memory allows.
- Full Unicode case mapping: `TextCase.Lower` maps only ASCII and Latin-1 capitals. Other letters, including those whose lower case has a different length, are left unchanged. The filters stay exact because no character outside Latin-1 lower-cases to a letter of `résolu` or `critique`. U+0130 comes closest: it lower-cases to `i` followed by U+0307, and U+0307 is in neither word. (The Kelvin sign U+212A lower-cases to `k`, which also appears in neither word.)
- `datetime` values: `created_at` is a `DateTime` record that the model only carries. Its calendar validity is not checked.
- Pydantic validation of the `Site` and `Incident` fields, which is library behaviour.
- The FastAPI application, the CORS configuration and the route handlers other than the count pass-through of `/status`. The `/sites`, `/incidents` and `/stats` routes return the stores or `compute_stats()` unchanged. `/` returns a constant.
- The uvicorn launch block, which is process start-up.
- Python's dictionary result of `compute_stats`, which becomes the `Stats` record with the same four fields.
