/**
 * Span lineage analysis of the `/otel-spans` diagnostics endpoint.
 *
 * The endpoint reads the finished spans recorded by the OpenTelemetry
 * exporter and reports (1) the names of all spans in input order, (2) the
 * names of the child spans grouped by their parent's trace id, in an
 * insertion-ordered dictionary, and (3) the "most recent parent": the parent
 * trace id of the parented span with the largest start time above a fixed
 * threshold of 1000000, the first such span winning ties.
 *
 * `Fold` is the specification (a left fold over the spans), `GetOtelSpans`
 * is the loop that mutates the dictionary and the two running variables, and
 * the lemmas below state what the fold computes in terms of independent
 * reference definitions (`ChildrenOf`, `FirstIndex`, `IsMostRecent`).
 */
module OtelSpans {
  import opened Wrappers

  /** A finished span: its name, the trace id of its parent (None for a root span) and its start time. */
  datatype Span = Span(name: string, parent: Option<string>, startTime: int)

  /** The starting value of the running start time: only spans that start strictly later can win. */
  const InitialThreshold: int := 1000000

  /**
   * The variables of the loop: the dictionary from parent trace id to child
   * names, split into its keys in insertion order and its entries, and the
   * two running variables of the most-recent-parent search.
   */
  datatype State = State(
    keys: seq<string>,
    groups: map<string, seq<string>>,
    mostRecentParent: Option<string>,
    mostRecentStartTime: int)

  /** The endpoint's JSON object; `groupOrder` is the key order of `spans_grouped_by_parent`. */
  datatype OtelReport = OtelReport(
    otelSpans: seq<string>,
    groupOrder: seq<string>,
    spansGroupedByParent: map<string, seq<string>>,
    mostRecentParent: Option<string>)

  const Initial: State := State([], map[], None, InitialThreshold)

  /** One iteration of the loop body. A root span leaves the state alone. */
  function Step(st: State, span: Span): State
  {
    match span.parent
    case None => st
    case Some(traceId) =>
      var keys := if traceId in st.groups then st.keys else st.keys + [traceId];
      var group := if traceId in st.groups then st.groups[traceId] + [span.name] else [span.name];
      var groups := st.groups[traceId := group];
      if span.startTime > st.mostRecentStartTime then
        State(keys, groups, Some(traceId), span.startTime)
      else
        State(keys, groups, st.mostRecentParent, st.mostRecentStartTime)
  }

  /** The state after the loop has consumed all of `spans`. */
  function Fold(spans: seq<Span>): State
    decreases |spans|
  {
    if spans == [] then Initial
    else Step(Fold(spans[..|spans| - 1]), spans[|spans| - 1])
  }

  /** The names of all spans, parents and children alike, in input order. */
  function SpanNames(spans: seq<Span>): (names: seq<string>)
    ensures |names| == |spans|
    ensures forall i :: 0 <= i < |spans| ==> names[i] == spans[i].name
  {
    if spans == [] then [] else [spans[0].name] + SpanNames(spans[1..])
  }

  /** The report the endpoint returns for `spans`. */
  function Analyze(spans: seq<Span>): OtelReport
  {
    var st := Fold(spans);
    OtelReport(SpanNames(spans), st.keys, st.groups, st.mostRecentParent)
  }

  /** The endpoint's loop, mutating the dictionary, its key order and the two running variables. */
  method GetOtelSpans(recordedSpans: seq<Span>) returns (report: OtelReport)
    ensures report == Analyze(recordedSpans)
  {
    var mostRecentParent: Option<string> := None;
    var mostRecentStartTime := InitialThreshold;
    var spansGroupedByParent: map<string, seq<string>> := map[];
    var keyOrder: seq<string> := [];
    var i := 0;
    while i < |recordedSpans|
      invariant 0 <= i <= |recordedSpans|
      invariant Fold(recordedSpans[..i])
             == State(keyOrder, spansGroupedByParent, mostRecentParent, mostRecentStartTime)
    {
      var span := recordedSpans[i];
      if span.parent.Some? {
        var parentTraceId := span.parent.value;
        if parentTraceId !in spansGroupedByParent {
          spansGroupedByParent := spansGroupedByParent[parentTraceId := []];
          keyOrder := keyOrder + [parentTraceId];
          assert [] + [span.name] == [span.name];
        }
        spansGroupedByParent := spansGroupedByParent[parentTraceId := spansGroupedByParent[parentTraceId] + [span.name]];
        if span.startTime > mostRecentStartTime {
          mostRecentParent := Some(parentTraceId);
          mostRecentStartTime := span.startTime;
        }
      }
      assert recordedSpans[..i + 1][..i] == recordedSpans[..i];
      i := i + 1;
    }
    assert recordedSpans[..i] == recordedSpans;
    report := OtelReport(SpanNames(recordedSpans), keyOrder, spansGroupedByParent, mostRecentParent);
  }

  // ---------------------------------------------------------------------
  // Reference definitions, written without the loop's state
  // ---------------------------------------------------------------------

  /** Some span of `spans` has `traceId` as its parent. */
  ghost predicate HasParent(spans: seq<Span>, traceId: string)
  {
    exists i :: 0 <= i < |spans| && spans[i].parent == Some(traceId)
  }

  /** The names of the children of `traceId`, in input order. */
  function ChildrenOf(spans: seq<Span>, traceId: string): seq<string>
    decreases |spans|
  {
    if spans == [] then []
    else
      var last := spans[|spans| - 1];
      ChildrenOf(spans[..|spans| - 1], traceId) + (if last.parent == Some(traceId) then [last.name] else [])
  }

  /** The number of spans that have a parent. */
  function CountParented(spans: seq<Span>): nat
    decreases |spans|
  {
    if spans == [] then 0
    else CountParented(spans[..|spans| - 1]) + (if spans[|spans| - 1].parent.Some? then 1 else 0)
  }

  /** The index of the first span whose parent is `traceId`. */
  ghost function FirstIndex(spans: seq<Span>, traceId: string): (i: nat)
    requires HasParent(spans, traceId)
    ensures i < |spans| && spans[i].parent == Some(traceId)
    ensures forall j :: 0 <= j < i ==> spans[j].parent != Some(traceId)
    decreases |spans|
  {
    var init := spans[..|spans| - 1];
    if HasParent(init, traceId) then FirstIndex(init, traceId)
    else
      assert forall j :: 0 <= j < |init| ==> spans[j] == init[j];
      |spans| - 1
  }

  /** The total number of names over the groups listed in `keys`. */
  function GroupedCount(keys: seq<string>, groups: map<string, seq<string>>): nat
    decreases |keys|
  {
    if keys == [] then 0
    else
      var k := keys[|keys| - 1];
      GroupedCount(keys[..|keys| - 1], groups) + (if k in groups then |groups[k]| else 0)
  }

  ghost predicate Distinct(keys: seq<string>)
  {
    forall i, j :: 0 <= i < j < |keys| ==> keys[i] != keys[j]
  }

  /**
   * Span `i` is the one the most-recent-parent search settles on: it has a
   * parent, starts after the threshold, starts strictly after every earlier
   * parented span and no later than any later parented span.
   */
  ghost predicate IsMostRecent(spans: seq<Span>, i: int)
  {
    && 0 <= i < |spans|
    && spans[i].parent.Some?
    && spans[i].startTime > InitialThreshold
    && (forall j :: 0 <= j < i && spans[j].parent.Some? ==> spans[j].startTime < spans[i].startTime)
    && (forall j :: i < j < |spans| && spans[j].parent.Some? ==> spans[j].startTime <= spans[i].startTime)
  }

  /** The spans that have a parent, in input order. */
  function Parented(spans: seq<Span>): seq<Span>
    decreases |spans|
  {
    if spans == [] then []
    else
      var last := spans[|spans| - 1];
      Parented(spans[..|spans| - 1]) + (if last.parent.Some? then [last] else [])
  }

  // ---------------------------------------------------------------------
  // The loop invariant, stated against the reference definitions
  // ---------------------------------------------------------------------

  /** The dictionary part of `st` is exactly the grouping of `spans` by parent. */
  ghost predicate GroupsFaithful(spans: seq<Span>, st: State)
  {
    && KeysFaithful(spans, st)
    && (forall k :: k in st.groups ==> st.groups[k] == ChildrenOf(spans, k))
    && (forall i, j :: 0 <= i < j < |st.keys| ==> FirstIndex(spans, st.keys[i]) < FirstIndex(spans, st.keys[j]))
    && GroupedCount(st.keys, st.groups) == CountParented(spans)
  }

  /** The running variables of `st` are the running maximum over the parented spans of `spans`. */
  ghost predicate RecentFaithful(spans: seq<Span>, st: State)
  {
    && st.mostRecentStartTime >= InitialThreshold
    && (forall j :: 0 <= j < |spans| && spans[j].parent.Some? ==> spans[j].startTime <= st.mostRecentStartTime)
    && (st.mostRecentParent.None? ==> st.mostRecentStartTime == InitialThreshold)
    && (st.mostRecentParent.Some? ==>
          exists i :: IsMostRecent(spans, i) && spans[i].parent == st.mostRecentParent
                      && spans[i].startTime == st.mostRecentStartTime)
  }

  lemma SnocPrefix(spans: seq<Span>, span: Span)
    ensures (spans + [span])[..|spans|] == spans
    ensures (spans + [span])[|spans|] == span
  {
  }

  lemma {:induction false} SnocHasParent(spans: seq<Span>, span: Span, k: string)
    ensures HasParent(spans + [span], k) <==> HasParent(spans, k) || span.parent == Some(k)
  {
    var s := spans + [span];
    if HasParent(s, k) && !HasParent(spans, k) {
      var i :| 0 <= i < |s| && s[i].parent == Some(k);
      if i < |spans| {
        assert spans[i] == s[i];
      }
    }
    if HasParent(spans, k) {
      var i :| 0 <= i < |spans| && spans[i].parent == Some(k);
      assert s[i] == spans[i];
    }
    if span.parent == Some(k) {
      assert s[|spans|] == span;
    }
  }

  lemma {:induction false} GroupedCountUpdate(keys: seq<string>, groups: map<string, seq<string>>, k: string, v: seq<string>)
    requires Distinct(keys)
    requires k in keys ==> k in groups
    ensures GroupedCount(keys, groups[k := v])
         == GroupedCount(keys, groups) + (if k in keys then |v| - |groups[k]| else 0)
    decreases |keys|
  {
    if keys != [] {
      var init := keys[..|keys| - 1];
      assert keys == init + [keys[|keys| - 1]];
      assert k in keys <==> k in init || keys[|keys| - 1] == k;
      GroupedCountUpdate(init, groups, k, v);
    }
  }

  /** The keys of the dictionary are the parents seen so far, each listed once. */
  ghost predicate KeysFaithful(spans: seq<Span>, st: State)
  {
    && (forall k :: k in st.groups <==> HasParent(spans, k))
    && (forall k :: k in st.keys <==> k in st.groups)
    && Distinct(st.keys)
  }

  lemma {:induction false} StepKeys(spans: seq<Span>, st: State, span: Span)
    requires KeysFaithful(spans, st)
    ensures KeysFaithful(spans + [span], Step(st, span))
  {
    forall k ensures HasParent(spans + [span], k) <==> HasParent(spans, k) || span.parent == Some(k) {
      SnocHasParent(spans, span, k);
    }
    if span.parent.Some? && span.parent.value !in st.groups {
      var st' := Step(st, span);
      forall i | 0 <= i < |st.keys| ensures st'.keys[i] != span.parent.value {
        assert st.keys[i] in st.keys;
      }
    }
  }

  lemma {:induction false} StepContents(spans: seq<Span>, st: State, span: Span)
    requires KeysFaithful(spans, st)
    requires forall k :: k in st.groups ==> st.groups[k] == ChildrenOf(spans, k)
    ensures forall k :: k in Step(st, span).groups ==> Step(st, span).groups[k] == ChildrenOf(spans + [span], k)
  {
    SnocPrefix(spans, span);
    forall k ensures ChildrenOf(spans + [span], k) == ChildrenOf(spans, k) + (if span.parent == Some(k) then [span.name] else []) {
    }
    if span.parent.Some? && span.parent.value !in st.groups {
      assert ChildrenOf(spans, span.parent.value) == [] by {
        ChildrenOfAbsent(spans, span.parent.value);
      }
    }
  }

  lemma {:induction false} ChildrenOfAbsent(spans: seq<Span>, k: string)
    requires !HasParent(spans, k)
    ensures ChildrenOf(spans, k) == []
    decreases |spans|
  {
    if spans != [] {
      var init := spans[..|spans| - 1];
      assert !HasParent(init, k);
      ChildrenOfAbsent(init, k);
      assert spans[|spans| - 1].parent != Some(k);
    }
  }

  lemma {:induction false} StepOrder(spans: seq<Span>, st: State, span: Span)
    requires KeysFaithful(spans, st)
    requires forall i, j :: 0 <= i < j < |st.keys| ==> FirstIndex(spans, st.keys[i]) < FirstIndex(spans, st.keys[j])
    ensures KeysFaithful(spans + [span], Step(st, span))
    ensures forall i, j :: 0 <= i < j < |Step(st, span).keys| ==>
              FirstIndex(spans + [span], Step(st, span).keys[i]) < FirstIndex(spans + [span], Step(st, span).keys[j])
  {
    var s := spans + [span];
    var st' := Step(st, span);
    StepKeys(spans, st, span);
    SnocPrefix(spans, span);
    forall k | HasParent(spans, k) ensures FirstIndex(s, k) == FirstIndex(spans, k) {
    }
    forall i | 0 <= i < |st.keys| ensures HasParent(spans, st.keys[i]) {
      assert st.keys[i] in st.keys;
    }
    if span.parent.Some? && span.parent.value !in st.groups {
      var p := span.parent.value;
      assert st'.keys == st.keys + [p];
      assert FirstIndex(s, p) == |spans|;
    } else {
      assert st'.keys == st.keys;
    }
  }

  lemma {:induction false} StepCount(spans: seq<Span>, st: State, span: Span)
    requires KeysFaithful(spans, st)
    requires GroupedCount(st.keys, st.groups) == CountParented(spans)
    requires forall k :: k in st.groups ==> st.groups[k] == ChildrenOf(spans, k)
    ensures GroupedCount(Step(st, span).keys, Step(st, span).groups) == CountParented(spans + [span])
  {
    var st' := Step(st, span);
    SnocPrefix(spans, span);
    assert CountParented(spans + [span]) == CountParented(spans) + (if span.parent.Some? then 1 else 0);
    if span.parent.Some? {
      var p := span.parent.value;
      if p in st.groups {
        GroupedCountUpdate(st.keys, st.groups, p, st.groups[p] + [span.name]);
      } else {
        assert st'.groups == st.groups[p := [span.name]];
        GroupedCountUpdate(st.keys, st.groups, p, [span.name]);
        assert st'.keys == st.keys + [p] && st'.keys[..|st'.keys| - 1] == st.keys;
        assert GroupedCount(st'.keys, st'.groups) == GroupedCount(st.keys, st'.groups) + 1;
      }
    }
  }

  lemma {:induction false} StepGroups(spans: seq<Span>, st: State, span: Span)
    requires GroupsFaithful(spans, st)
    ensures GroupsFaithful(spans + [span], Step(st, span))
  {
    StepContents(spans, st, span);
    StepOrder(spans, st, span);
    StepCount(spans, st, span);
  }

  lemma {:induction false} StepRecent(spans: seq<Span>, st: State, span: Span)
    requires RecentFaithful(spans, st)
    ensures RecentFaithful(spans + [span], Step(st, span))
  {
    var s := spans + [span];
    var st' := Step(st, span);
    SnocPrefix(spans, span);
    assert forall j :: 0 <= j < |spans| ==> s[j] == spans[j];
    if span.parent.Some? && span.startTime > st.mostRecentStartTime {
      assert IsMostRecent(s, |spans|);
    } else if st.mostRecentParent.Some? {
      var i :| IsMostRecent(spans, i) && spans[i].parent == st.mostRecentParent
                && spans[i].startTime == st.mostRecentStartTime;
      assert IsMostRecent(s, i);
    }
  }

  /** The loop invariant holds of the specification fold after any number of spans. */
  lemma {:induction false} FoldFaithful(spans: seq<Span>)
    ensures GroupsFaithful(spans, Fold(spans))
    ensures RecentFaithful(spans, Fold(spans))
    decreases |spans|
  {
    if spans == [] {
      assert Fold(spans) == Initial;
    } else {
      var init, last := spans[..|spans| - 1], spans[|spans| - 1];
      FoldFaithful(init);
      StepGroups(init, Fold(init), last);
      StepRecent(init, Fold(init), last);
      assert init + [last] == spans;
    }
  }

  // ---------------------------------------------------------------------
  // What the endpoint reports
  // ---------------------------------------------------------------------

  /**
   * `spans_grouped_by_parent` has a key exactly for each trace id that is
   * some span's parent, and under it the names of that trace id's children in
   * input order; root spans appear in no group.
   */
  lemma GroupsAreChildren(spans: seq<Span>)
    ensures forall k :: k in Analyze(spans).spansGroupedByParent <==> HasParent(spans, k)
    ensures forall k :: k in Analyze(spans).spansGroupedByParent ==>
              Analyze(spans).spansGroupedByParent[k] == ChildrenOf(spans, k)
  {
    FoldFaithful(spans);
  }

  /**
   * The keys of `spans_grouped_by_parent` are listed once each, in the order
   * in which their trace ids first occur as a parent.
   */
  lemma KeysInFirstOccurrenceOrder(spans: seq<Span>)
    ensures forall k :: k in Analyze(spans).groupOrder <==> k in Analyze(spans).spansGroupedByParent
    ensures Distinct(Analyze(spans).groupOrder)
    ensures forall i, j :: 0 <= i < j < |Analyze(spans).groupOrder| ==>
              && HasParent(spans, Analyze(spans).groupOrder[i])
              && HasParent(spans, Analyze(spans).groupOrder[j])
              && FirstIndex(spans, Analyze(spans).groupOrder[i]) < FirstIndex(spans, Analyze(spans).groupOrder[j])
  {
    FoldFaithful(spans);
  }

  /** Every parented span contributes exactly one name to exactly one group. */
  lemma GroupSizesMatchParented(spans: seq<Span>)
    ensures GroupedCount(Analyze(spans).groupOrder, Analyze(spans).spansGroupedByParent) == CountParented(spans)
  {
    FoldFaithful(spans);
  }

  /** `most_recent_parent` is null exactly when no parented span starts after the threshold. */
  lemma MostRecentParentNull(spans: seq<Span>)
    ensures Analyze(spans).mostRecentParent.None? <==>
            forall j :: 0 <= j < |spans| && spans[j].parent.Some? ==> spans[j].startTime <= InitialThreshold
  {
    FoldFaithful(spans);
  }

  /**
   * When not null, `most_recent_parent` is the parent of the earliest
   * parented span reaching the maximal start time above the threshold, and
   * that span decides it whenever it exists.
   */
  lemma MostRecentParentIsEarliestMaximum(spans: seq<Span>)
    ensures Analyze(spans).mostRecentParent.Some? ==>
              exists i :: IsMostRecent(spans, i) && spans[i].parent == Analyze(spans).mostRecentParent
    ensures forall i :: IsMostRecent(spans, i) ==> Analyze(spans).mostRecentParent == spans[i].parent
  {
    FoldFaithful(spans);
    var st := Fold(spans);
    forall i | IsMostRecent(spans, i) ensures st.mostRecentParent == spans[i].parent {
      if st.mostRecentParent.None? {
        assert spans[i].startTime <= st.mostRecentStartTime;
      } else {
        var w :| IsMostRecent(spans, w) && spans[w].parent == st.mostRecentParent
                 && spans[w].startTime == st.mostRecentStartTime;
      }
    }
  }

  /** When not null, `most_recent_parent` is a key of `spans_grouped_by_parent`. */
  lemma MostRecentParentIsGroupKey(spans: seq<Span>)
    ensures Analyze(spans).mostRecentParent.Some? ==>
              Analyze(spans).mostRecentParent.value in Analyze(spans).spansGroupedByParent
  {
    FoldFaithful(spans);
    var st := Fold(spans);
    if st.mostRecentParent.Some? {
      var i :| IsMostRecent(spans, i) && spans[i].parent == st.mostRecentParent
               && spans[i].startTime == st.mostRecentStartTime;
      assert HasParent(spans, st.mostRecentParent.value);
    }
  }

  /**
   * Root spans are inert: whatever their start times, dropping them changes
   * neither the grouping, nor its key order, nor the most recent parent.
   */
  lemma {:induction false} RootSpansAreInert(spans: seq<Span>)
    ensures Fold(Parented(spans)) == Fold(spans)
    decreases |spans|
  {
    if spans != [] {
      var init, last := spans[..|spans| - 1], spans[|spans| - 1];
      RootSpansAreInert(init);
      if last.parent.Some? {
        var p := Parented(init) + [last];
        assert p[..|p| - 1] == Parented(init) && p[|p| - 1] == last;
        assert Parented(spans) == p;
        assert Fold(p) == Step(Fold(Parented(init)), last);
      } else {
        assert Parented(spans) == Parented(init);
      }
    }
  }

  /** With no spans recorded the report is empty and has no most recent parent. */
  lemma EmptyInput()
    ensures Analyze([]) == OtelReport([], [], map[], None)
  {
  }

  /** With only root spans: every name is listed, no group exists and the most recent parent stays null. */
  lemma AllRootSpans(spans: seq<Span>)
    requires forall j :: 0 <= j < |spans| ==> spans[j].parent.None?
    ensures Analyze(spans).spansGroupedByParent == map[]
    ensures Analyze(spans).groupOrder == []
    ensures Analyze(spans).mostRecentParent.None?
    ensures Analyze(spans).otelSpans == SpanNames(spans)
  {
    FoldFaithful(spans);
  }

  /**
   * A worked example: a root span "A", then "B" and "C" under trace "T1"
   * starting at 5 and 2000000. Only "C" clears the threshold.
   */
  lemma ThresholdExample()
    ensures Analyze([Span("A", None, 0), Span("B", Some("T1"), 5), Span("C", Some("T1"), 2000000)])
         == OtelReport(["A", "B", "C"], ["T1"], map["T1" := ["B", "C"]], Some("T1"))
    ensures Analyze([Span("B", Some("T1"), 5)]).mostRecentParent == None
  {
    var a, b, c := Span("A", None, 0), Span("B", Some("T1"), 5), Span("C", Some("T1"), 2000000);
    assert [a][..0] == [] && [b][..0] == [];
    assert Fold([a]) == Initial;
    assert [a, b][..1] == [a];
    assert Fold([a, b]) == Step(Fold([a]), b);
    assert Step(Initial, b) == State(["T1"], map["T1" := ["B"]], None, InitialThreshold);
    assert Fold([a, b]) == State(["T1"], map["T1" := ["B"]], None, InitialThreshold);
    assert [a, b, c][..2] == [a, b];
    assert Fold([a, b, c]) == Step(Fold([a, b]), c);
    assert ["B"] + ["C"] == ["B", "C"];
    assert Fold([a, b, c]) == State(["T1"], map["T1" := ["B", "C"]], Some("T1"), 2000000);
    assert Fold([b]) == Step(Initial, b);
    assert SpanNames([a, b, c]) == ["A", "B", "C"];
  }
}
