# geoip-history, modelled in Dafny

`geoip-history` reconstructs where a set of IP addresses has been located
over time. It lists the releases of a GeoIP database repository, keeps the
releases published at or after a date floor that carry the database file,
samples an evenly spaced subset of them, runs an external conversion tool on
each sampled database (which writes one file of networks per country), labels
every address with the first country file holding a network that contains it,
and finally prints, per address, the date-sorted history of its labels with
consecutive repeats collapsed.

This project models that pipeline (all of it lives in `main.py`) as pure
functions over immutable data, and proves what each stage promises.

| file | module | models |
|---|---|---|
| `wrappers.dfy` | `Wrappers` | `Option` and `Result` |
| `catalog.dfy` | `Catalog` | the release/asset filter |
| `sampler.dfy` | `Sampler` | the `--amount` check and the sampling of the catalog |
| `networks.dfy` | `Networks` | addresses, networks, and `ip in network` |
| `classifier.dfy` | `Classifier` | one classification pass (`geoip`), with its early return |
| `timeline.dfy` | `Timeline` | the stable sort by date and the compaction of a history |
| `pipeline.dfy` | `Pipeline` | the assembly of the per-address histories and the whole run |

Modelling choices:

- Dates are integers. A release's `published_at` and the `--date` floor are
  compared as numbers.
- The registry's release list is taken as one already-concatenated sequence,
  in the order the registry returned it. The catalog is never sorted.
  `Catalog.CatalogFilterConcat` shows that filtering page by page gives the same catalog.
- The requested amount is `Sampler.Amount`: `All` stands for the default
  `float('inf')`, and `Count(n)` for an integer.
- An address is a version (4 or 6) and an integer value. A network is a
  version, a base address and a prefix length, already parsed.
  `Networks.Contains` is Python's `ip in network`:
  - false across versions;
  - otherwise the address with its host bits cleared must equal the base.
- The conversion tool is a parameter `tool: string -> seq<DirEntry>`. It maps
  a snapshot URL to the output directory's entries, in listing order. Each
  entry records its stem, whether it is a regular file, and its parsed lines.
- Per network line, the source loops over a copy of the unresolved set, in
  hash order. Its net effect does not depend on that order, so it is one
  `Classifier.Step`. That step gives the line's label to every unresolved
  address the line contains. The early return fires when a line empties a
  non-empty unresolved set, which is exactly when the source's
  `if not left_ips` check succeeds.
- `Classifier.Geoip` also returns `inspected`, the number of network lines it
  read. It exists only so that the contract can state where the pass stops.
- `Timeline.SortByDate` is an insertion sort. `Timeline.StableSortIsUnique`
  proves that every stable sort by date gives its result, Python's
  `list.sort` included.

Behaviour as the code has it:

- With 10 catalog entries and an amount of 3, the sampled indices are 0, 5
  and 9. The middle one is `1 * 10 // 2`.
- The amount is clamped to the catalog size first, so K ≤ N. For K ≥ 2 the
  indices are strictly increasing, so the sampler never picks the same
  snapshot twice.
- An empty catalog is not an error. Nothing is sampled, and every address
  gets an empty history.
- The registry lists releases newest first, and the code does not reorder
  them. So an amount of 1 picks the first release in registry order.
- A malformed network line makes `ipaddress.ip_network` raise, which aborts
  the run. The model takes lines as already parsed, so it has no skip path.
- The tool's exit status is ignored (`subprocess.run` without `check=True`),
  and the pass reads whatever files the tool left in the directory, partial
  output included. The model covers that: `tool` is an arbitrary function.
  If the tool wrote nothing, every address keeps the unknown label `""` for
  that snapshot. `""` is compared like any other label during compaction.

## Model

| member | source | states |
|---|---|---|
| `Catalog.FindAsset` | main.py:128-134 | returns the index of the first asset whose name equals the file name; returns none exactly when no asset has that name |
| `Catalog.CatalogFilter` | main.py:123-134 | produces at most one entry per release, and every entry is dated at or after the floor |
| `Catalog.CatalogFilterSpec` | main.py:123-134 | the catalog entries come from strictly increasing release indices, so order is kept and no release appears twice; each such release is kept; every kept release (date ≥ floor, has the file) appears; each entry is the URL of the release's first matching asset plus the release date |
| `Catalog.CatalogFilterConcat` | main.py:115-136 | filtering two pages and concatenating the results equals filtering their concatenation |
| `Sampler.CheckAmount` | main.py:36-40 | an amount below 1 is rejected with "Amount should be greater than 0"; any other amount is accepted unchanged |
| `Sampler.Clamp` | main.py:138-139 | the amount after clamping never exceeds the catalog size; "all" becomes the catalog size; a count above the size becomes the size; other counts are kept |
| `Sampler.SampleIndices` | main.py:141-145 | every sampled index is a valid catalog index; there are K indices for a clamped amount K ≥ 1, and none otherwise |
| `Sampler.Sample` | main.py:140-145 | the sample is the catalog read at the sampled indices, so it is never longer than the catalog |
| `Sampler.SampleIndicesSpread` | main.py:144-145 | for 2 ≤ K ≤ N: K indices; the first is 0; the last is N-1; they are strictly increasing; each index except the last equals `i*N//(K-1)` with no clamping |
| `Sampler.SampleIndicesWhole` | main.py:144-145 | when K = N the indices are 0, 1, …, N-1 |
| `Sampler.SampleAtLeastAll` | main.py:138-145 | an amount of "all" or of at least N returns the whole catalog in its original order |
| `Sampler.SampleOne` | main.py:141-142 | a clamped amount of 1 returns exactly the first catalog entry |
| `Sampler.SampleEmpty` | main.py:138-145 | an empty catalog gives an empty sample for every amount, without failing |
| `Sampler.SampleLength` | main.py:138-145 | for an amount the command line accepts, the sample has min(amount, N) entries, or N for "all" |
| `Sampler.SampleTenThree` | main.py:144-145 | ten entries sampled three times read indices 0, 5 and 9 |
| `Networks.ContainsIffSamePrefix` | main.py:101-103 | for a strictly parsed network, membership holds exactly when the versions match and the top prefix bits are equal; membership is always false across versions |
| `Networks.GoogleDnsExample` | main.py:101-103 | 8.8.8.8 is in 8.8.8.0/24 and not in 1.1.1.0/24 |
| `Classifier.Step` | main.py:102-106 | one network line gives its label to exactly the unresolved addresses it contains and removes them from the unresolved set; a resolved address keeps its label; the keys never change |
| `Classifier.Scan` | main.py:96-106 | scanning every line to the end keeps the targets as keys and the unresolved set among them |
| `Classifier.Classify` | main.py:84-109 | the pass result has exactly the targets as keys; each address maps to the stem of the first regular file, in listing order, that holds a network containing it, or to `""` when there is none |
| `Classifier.StepKeepsInvariant` | main.py:102-106 | after each line, an address is unresolved exactly when no line read so far contains it, and its label is that of the first containing line |
| `Classifier.ScanFindsFirst` | main.py:96-106 | the line-by-line scan gives every target the label of the first containing line, or `""` |
| `Classifier.LinesFirstIsFileFirst` | main.py:96-103 | the first containing line, scanning files in order and lines within each file, belongs to the first regular file holding a containing network; entries that are not regular files are skipped |
| `Classifier.ScanResolved` | main.py:107-108 | once no address is unresolved, further lines change nothing |
| `Classifier.ScanStopsEarly` | main.py:107-109 | returning after the line that resolves the last address gives the same result as reading every line |
| `Classifier.ReadFile` | main.py:99-108 | the line loop over one file either returns right after the line that resolved the last target, or reads every line of the file with something still unresolved |
| `Classifier.ReadNext` | main.py:101-108 | reading one line resolves the addresses it contains; it reports the return exactly when this line resolved the last address still unresolved, and the pass goes on otherwise |
| `Classifier.Geoip` | main.py:83-109 | the early-returning pass gives the same result as the full scan. Its keys are the targets, each labelled by its first containing file. It stops before the last line only when there are targets and all are resolved, and only on the line that resolved the last of them; with no targets it reads every line |
| `Classifier.NoTargetsReadsAll` | main.py:104-108 | with no target addresses the pass never returns early: the early return is tested only after an address is resolved |
| `Classifier.ClassifyExample` | main.py:84-109 | 8.8.8.8, with a file US holding 8.8.8.0/24 and a file JP holding 1.1.1.0/24, is labelled US |
| `Timeline.SortByDate` | main.py:161-162 | the sorted history is ordered by date and is a permutation of the input |
| `Timeline.SortByDateStable` | main.py:161-162 | the sort is stable: for each date, the records with that date keep their input order |
| `Timeline.StableSortIsUnique` | main.py:161-162 | two date-sorted sequences with the same per-date subsequences are equal, so any stable sort agrees with this one |
| `Timeline.CompactIsChangePoints` | main.py:164-168 | the compaction loop keeps exactly the first record and every record whose country differs from the record just before it |
| `Timeline.CompactSpec` | main.py:164-168 | the compacted history is a subsequence of its input, starts with the input's first record, never has two adjacent equal countries, is empty only for an empty input, and stays sorted when the input is sorted |
| `Timeline.CompactOfNoRepeats` | main.py:164-168 | a history without adjacent equal countries is left unchanged |
| `Timeline.CompactIdempotent` | main.py:164-168 | compacting twice equals compacting once |
| `Timeline.CompactSingleCountry` | main.py:164-168 | a non-empty history with a single country compacts to its first record |
| `Timeline.SingleCountryTimeline` | main.py:161-168 | observations that all carry one country sort and compact to one record: one of the observations, with that country and a date no later than any other |
| `Timeline.CompactExample` | main.py:164-168 | the labels US, US, JP on days 1, 2, 3 compact to US on day 1 and JP on day 3 |
| `Pipeline.Observations` | main.py:151-159 | an address's history holds one record per sampled snapshot, in sample order. Each record has that snapshot's date and the label the pass gave the address |
| `Pipeline.Timelines` | main.py:161-168 | there is one timeline per target address, and no other |
| `Pipeline.GeoipUntilDate` | main.py:138-168 | the run produces timelines keyed by exactly the target addresses |
| `Pipeline.TimelineSpec` | main.py:151-168 | for each target: the observations, one per sampled snapshot, are stably sorted by date; the timeline is a date-sorted subsequence of that sort, with no adjacent repeated country; it starts with the earliest observation; every record in it is some sampled snapshot's observation |
| `Pipeline.StableTarget` | main.py:151-168 | an address with the same label in every pass has a one-record timeline, with that label and the earliest sampled date: a sampled date no later than any other |
| `Pipeline.EmptyCatalogGivesEmptyTimelines` | main.py:138-168 | when no release passes the filter, every target's timeline is empty and the run does not fail |

## Left out

- Argument parsing, `.env` loading and the `GITHUB_TOKEN` check (main.py:50-73): configuration glue. `check_path` (main.py:43-47) is left out too, because it queries the file system.
- `build_url` (main.py:76-80): a wrapper over `urllib`.
- The registry's pagination loop and `requests.get` (main.py:115-121, 136): network I/O. The model filters the concatenated release list, which `Catalog.CatalogFilterConcat` justifies.
- Date parsing and formatting (main.py:124, 62): dates are integers.
- The temporary config file, the mutation of `geoip_config`, `subprocess.run` and `Path.iterdir` (main.py:87-99): process and file-system I/O. The tool is a function parameter, and the directory listing is a given sequence.
- Parsing a line with `ipaddress.ip_network(network.strip())` (main.py:101): lines are already parsed networks. A malformed line or a host-bit-set network raises in the source and aborts the run. That failure is not modelled.
- The order of the innermost loop over `left_ips.copy()` (main.py:102): it iterates a set in hash order. The line's effect does not depend on that order, so one line is one step.
- The `--verbose` listing, `tqdm`, and printing the histories (main.py:147-149, 153, 170-172): presentation only.
- Repeated addresses on the command line: the source's dictionaries keep one entry per address, so targets are a set.
