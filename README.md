# LiteLLM proxy debug diagnostics, modelled in Dafny

This project models the logic of the LiteLLM proxy's debug endpoints
(`litellm/proxy/common_utils/debug_utils.py`). There are three reports:

- **`/otel-spans`** (module `OtelSpans`, `otel_spans.dfy`). It takes the finished
  OpenTelemetry spans. Each span has a name, an optional parent trace id and a
  start time. The report has three parts:
  - `otel_spans`: every span name, in input order.
  - `spans_grouped_by_parent`: an insertion-ordered dictionary from parent trace
    id to the names of that parent's child spans.
  - `most_recent_parent`: the parent trace id of the latest parented span.
    "Latest" means a strict `>` comparison against a running value that starts
    at `1000000`.

  The dictionary is modelled as a key-order sequence (`groupOrder`) plus a
  `map`. `Fold` is the specification, a pure left fold of one loop iteration
  (`Step`) over the spans. `GetOtelSpans` is the imperative loop that mutates
  the dictionary, the key order and the two running variables, and it is proved
  to compute `Analyze`. The lemmas compare `Analyze` with reference definitions
  that do not mention the loop:
  - `ChildrenOf`: the names of a trace id's children, in order.
  - `FirstIndex`: the first span having a given parent.
  - `IsMostRecent`: the earliest parented span that reaches the maximum start time above the threshold.
  - `CountParented` and `Parented`: the count and the list of spans that have a parent.
- **`/memory-usage-in-mem-cache`** (module `CacheCensus`, `cache_census.dfy`).
  There are three caches: the user API key cache, the router cache and the proxy
  logging object's usage cache. Each one reports `len(cache_dict) + len(ttl_dict)`.
  A cache is modelled by its two dictionaries.
- **`/memory-usage`** (module `MemoryReport`, `memory_report.dfy`). This report
  renders the first 50 statistics of an allocation snapshot, in the tracker's own
  order. The snapshot is an input sequence. Rendering one statistic is a function
  parameter.

`wrappers.dfy` holds the `Option` type that stands for Python's `None`.

The code and the design description disagree in a few places. The model
follows the code:
- The design describes the memory report as sorting the statistics by size.
  The code does not sort. It takes `top_stats[:50]` in the order the tracker
  returns. `MemoryUsage` keeps that order. `TopKeepsLargest` states what follows
  when the tracker's list is already sorted largest first.
- The design names the errors `DiagnosticsUnavailable` and
  `CacheNotInitialized(name)`. The code has neither. The reports have no error
  path in the model.

## Model

| member | source | states |
|---|---|---|
| `OtelSpans.GetOtelSpans` | litellm/proxy/common_utils/debug_utils.py:85-106 | The loop that updates the dictionary in place (create the key if absent, then append) and the running most-recent pair returns exactly the report of the specification fold, `Analyze`. |
| `OtelSpans.FoldFaithful` | litellm/proxy/common_utils/debug_utils.py:88-98 | After any prefix of spans, the loop state matches the reference definitions. The keys are exactly the parents seen, listed once each in first-occurrence order. Each group is that parent's children. The group sizes sum to the number of parented spans. The running time is the maximum over the parented spans, or the threshold, and the running parent belongs to the span that reached it first. |
| `OtelSpans.SpanNames` | litellm/proxy/common_utils/debug_utils.py:101-103 | `otel_spans` has one entry per input span, and entry i is the name of span i. Root and child spans are both included. |
| `OtelSpans.GroupsAreChildren` | litellm/proxy/common_utils/debug_utils.py:88-93 | A trace id is a key of `spans_grouped_by_parent` if and only if some span has it as its parent. Its list is the names of exactly those spans, in input order. Root spans appear in no group. |
| `OtelSpans.KeysInFirstOccurrenceOrder` | litellm/proxy/common_utils/debug_utils.py:91-93 | The key order lists each key of the dictionary exactly once. Keys appear in the order in which their trace ids first occur as a parent. |
| `OtelSpans.GroupSizesMatchParented` | litellm/proxy/common_utils/debug_utils.py:89-93 | The lengths of all groups add up to the number of spans that have a parent. |
| `OtelSpans.MostRecentParentNull` | litellm/proxy/common_utils/debug_utils.py:85-97 | `most_recent_parent` is null if and only if no parented span has a start time above 1000000. Root spans have no effect on this, whatever their start times. |
| `OtelSpans.MostRecentParentIsEarliestMaximum` | litellm/proxy/common_utils/debug_utils.py:96-98 | When `most_recent_parent` is non-null, it is the parent of a span that starts strictly after every earlier parented span, no earlier than every later one, and after 1000000. When such a span exists, its parent is the result. Because the comparison is strict, later ties do not replace it. |
| `OtelSpans.MostRecentParentIsGroupKey` | litellm/proxy/common_utils/debug_utils.py:90-97 | A non-null `most_recent_parent` is always a key of `spans_grouped_by_parent`. |
| `OtelSpans.RootSpansAreInert` | litellm/proxy/common_utils/debug_utils.py:88-98 | Removing all root spans leaves the grouping, its key order and both running variables unchanged. |
| `OtelSpans.EmptyInput` | litellm/proxy/common_utils/debug_utils.py:85-106 | No spans give an empty name list, an empty dictionary and a null most recent parent. There is no failure path. |
| `OtelSpans.AllRootSpans` | litellm/proxy/common_utils/debug_utils.py:88-106 | When every span is a root span, the dictionary is empty, the most recent parent is null and all names are still listed. |
| `OtelSpans.ThresholdExample` | litellm/proxy/common_utils/debug_utils.py:86-98 | Worked example: spans A (root), B (T1, start 5) and C (T1, start 2000000) give `["A","B","C"]`, `{"T1": ["B","C"]}` and `"T1"`. Span B alone gives a null most recent parent, because 5 does not exceed the threshold. |
| `CacheCensus.ItemCount` | litellm/proxy/common_utils/debug_utils.py:57-59 | A cache's count is the number of distinct keys plus the number of keys present in both dictionaries: a key with a value and an expiry is counted twice. The count is zero only when both dictionaries are empty. |
| `CacheCensus.MemoryUsageInMemCache` | litellm/proxy/common_utils/debug_utils.py:57-71 | Each of the three reported counts is `len(cache_dict) + len(ttl_dict)` of its own cache. |
| `CacheCensus.ItemCountIsDistinctKeysWhenDisjoint` | litellm/proxy/common_utils/debug_utils.py:57-65 | A count is never below the number of distinct keys. It equals that number if and only if the two dictionaries share no key. |
| `MemoryReport.Top` | litellm/proxy/common_utils/debug_utils.py:35 | The slice `top_stats[:50]` is a prefix of the tracker's list, of length `min(50, len)`. |
| `MemoryReport.MemoryUsage` | litellm/proxy/common_utils/debug_utils.py:35-40 | The report has `min(50, len(top_stats))` lines, and line i renders statistic i of the tracker's list, in the given order. |
| `MemoryReport.TopKeepsLargest` | litellm/proxy/common_utils/debug_utils.py:31-35 | If the tracker lists statistics largest first, the kept prefix is still sorted. No statistic left out is larger than a kept one. |

## Left out

- Starting the allocation tracker, taking a snapshot and grouping it by line are calls into `tracemalloc`. The snapshot's statistics are an input sequence instead.
- Traceback formatting (`format(limit=10)`) and the floating-point KiB conversion `size / 1024` are not modelled. `MemoryUsage` takes them as one `render` parameter.
- MemoryUsage: does not sort. The order of the report is whatever order the tracker gives.
- The `objgraph` leak summaries and their catch-all `except` are not modelled. They only print.
- Route registration, the `LITELLM_PROFILE` environment gate and `async` are not modelled. Nothing in the handlers is concurrent.
- Reading the host's `proxy_server` singletons and the exporter's `get_finished_spans` is not modelled. The spans and the caches are parameters instead.
- The `print` and debug-log calls are I/O and are left out.
- A span's own trace id is not modelled, because the analysis reads only the parent's trace id.
- Python's attribute errors for a missing cache or exporter are not modelled. The code does not handle them.
- The cache classes themselves are not modelled. Only the sizes of their two dictionaries matter here.
