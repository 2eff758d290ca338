/** The shape of `METRIC_GROUPS` (an ordered list of named groups, each an
    ordered list of metric definitions) and the label lookup of
    `findMetricLabel` over any such list. */
module MetricDefs {
  import opened Wrappers
  import opened SeqFacts

  /** How a metric's value is displayed. */
  datatype Kind = Count | Currency

  datatype MetricDef = MetricDef(key: string, title: string, kind: Kind)

  /** One entry of `METRIC_GROUPS`: a group name and its metrics in order. */
  datatype MetricGroup = MetricGroup(name: string, metrics: seq<MetricDef>)

  /** Every metric of `groups`, group after group, each in list order. */
  function Flatten(groups: seq<MetricGroup>): seq<MetricDef> {
    if groups == [] then []
    else Flatten(groups[..|groups| - 1]) + groups[|groups| - 1].metrics
  }

  lemma {:induction false} FlattenAppend(a: seq<MetricGroup>, b: seq<MetricGroup>)
    ensures Flatten(a + b) == Flatten(a) + Flatten(b)
    decreases |b|
  {
    if b == [] {
      assert a + b == a;
    } else {
      var n := |b| - 1;
      assert Flatten(a + b) == Flatten(a + b[..n]) + b[n].metrics by {
        assert (a + b)[..|a + b| - 1] == a + b[..n];
      }
      FlattenAppend(a, b[..n]);
      AppendAssoc(Flatten(a), Flatten(b[..n]), b[n].metrics);
    }
  }

  /** No metric of `defs` has key `key`. */
  predicate NoKey(defs: seq<MetricDef>, key: string) {
    forall i :: 0 <= i < |defs| ==> defs[i].key != key
  }

  /** The position of the first metric of `defs` with key `key`, if any:
      what `arr.find(x => x.key === key)` finds. */
  function FirstWithKey(defs: seq<MetricDef>, key: string): (r: Option<nat>)
    ensures r.None? <==> NoKey(defs, key)
    ensures r.Some? ==> r.value < |defs| && defs[r.value].key == key &&
                        NoKey(defs[..r.value], key)
  {
    if defs == [] then None
    else if defs[0].key == key then Some(0)
    else match FirstWithKey(defs[1..], key)
      case None => None
      case Some(i) =>
        assert defs[..i + 1] == [defs[0]] + defs[1..][..i];
        Some(i + 1)
  }

  /** What `findMetricLabel(key)` returns over `groups`: the label of the
      first metric with that key, or the key itself. */
  function LabelOf(groups: seq<MetricGroup>, key: string): (r: string)
    ensures NoKey(Flatten(groups), key) ==> r == key
    ensures !NoKey(Flatten(groups), key) ==>
      exists i :: 0 <= i < |Flatten(groups)| && Flatten(groups)[i].key == key &&
                  NoKey(Flatten(groups)[..i], key) && r == Flatten(groups)[i].title
  {
    var defs := Flatten(groups);
    match FirstWithKey(defs, key)
    case Some(i) => defs[i].title
    case None => key
  }

  /** The loop of `findMetricLabel`: groups in order, and in each group the
      first metric with the key; returns its title, or the key when no
      group has it. */
  method FindLabelIn(groups: seq<MetricGroup>, key: string) returns (title: string)
    ensures title == LabelOf(groups, key)
  {
    var g := 0;
    while g < |groups|
      invariant 0 <= g <= |groups|
      invariant NoKey(Flatten(groups[..g]), key)
    {
      var metrics := groups[g].metrics;
      var m := 0;
      while m < |metrics|
        invariant 0 <= m <= |metrics|
        invariant NoKey(metrics[..m], key)
      {
        if metrics[m].key == key {
          title := metrics[m].title;
          FoundAt(groups, key, g, m);
          return;
        }
        m := m + 1;
      }
      assert metrics[..m] == metrics;
      FlattenStep(groups, g);
      NoKeyAppend(Flatten(groups[..g]), metrics, key);
      g := g + 1;
    }
    assert groups[..g] == groups;
    title := key;
  }

  lemma FlattenStep(groups: seq<MetricGroup>, g: nat)
    requires g < |groups|
    ensures Flatten(groups[..g + 1]) == Flatten(groups[..g]) + groups[g].metrics
  {
    assert groups[..g + 1][..g] == groups[..g];
  }

  lemma FlattenCut(groups: seq<MetricGroup>, g: nat)
    requires g < |groups|
    ensures Flatten(groups) == Flatten(groups[..g + 1]) + Flatten(groups[g + 1..])
  {
    assert groups == groups[..g + 1] + groups[g + 1..];
    FlattenAppend(groups[..g + 1], groups[g + 1..]);
  }

  lemma FlattenSplit(groups: seq<MetricGroup>, g: nat)
    requires g < |groups|
    ensures Flatten(groups) == Flatten(groups[..g]) + (groups[g].metrics + Flatten(groups[g + 1..]))
  {
    FlattenCut(groups, g);
    FlattenStep(groups, g);
    AppendAssoc(Flatten(groups[..g]), groups[g].metrics, Flatten(groups[g + 1..]));
  }

  lemma NoKeyAppend(a: seq<MetricDef>, b: seq<MetricDef>, key: string)
    requires NoKey(a, key) && NoKey(b, key)
    ensures NoKey(a + b, key)
  {
    forall i | 0 <= i < |a + b| ensures (a + b)[i].key != key {
      if i >= |a| {
        assert (a + b)[i] == b[i - |a|];
      }
    }
  }

  /** A metric with the key that no earlier metric shares is the one
      `FirstWithKey` finds. */
  lemma {:induction false} FirstWithKeyAt(defs: seq<MetricDef>, key: string, i: nat)
    requires i < |defs| && defs[i].key == key
    requires NoKey(defs[..i], key)
    ensures FirstWithKey(defs, key) == Some(i)
  {
    if i > 0 {
      assert defs[..i][0] == defs[0];
      assert defs[1..][..i - 1] == defs[..i][1..];
      FirstWithKeyAt(defs[1..], key, i - 1);
    }
  }

  /** When no earlier metric has the key and metric `m` of group `g` does,
      that metric is the first with the key. */
  lemma FoundAt(groups: seq<MetricGroup>, key: string, g: nat, m: nat)
    requires g < |groups| && m < |groups[g].metrics|
    requires NoKey(Flatten(groups[..g]), key)
    requires NoKey(groups[g].metrics[..m], key)
    requires groups[g].metrics[m].key == key
    ensures LabelOf(groups, key) == groups[g].metrics[m].title
  {
    var before := Flatten(groups[..g]);
    var metrics := groups[g].metrics;
    FlattenSplit(groups, g);
    var defs := Flatten(groups);
    var p := |before| + m;
    assert defs[p] == metrics[m];
    assert defs[..p] == before + metrics[..m];
    NoKeyAppend(before, metrics[..m], key);
    FirstWithKeyAt(defs, key, p);
  }

  /** The first-match rule: the title found for `key` is that of the first
      metric with that key. */
  lemma LabelOfFirstMatch(groups: seq<MetricGroup>, key: string, i: nat)
    requires i < |Flatten(groups)| && Flatten(groups)[i].key == key
    requires NoKey(Flatten(groups)[..i], key)
    ensures LabelOf(groups, key) == Flatten(groups)[i].title
  {
    FirstWithKeyAt(Flatten(groups), key, i);
  }

  /** No two metrics of `defs` share a key. */
  predicate KeysDistinct(defs: seq<MetricDef>) {
    forall i, j :: 0 <= i < j < |defs| ==> defs[i].key != defs[j].key
  }

  /** Every key of `defs` is non-empty and starts with `tag`, as each key of
      a group of `METRIC_GROUPS` starts with the group's prefix. */
  predicate Tagged(defs: seq<MetricDef>, tag: char) {
    forall d :: d in defs ==> |d.key| > 0 && d.key[0] == tag
  }

  /** Joining two lists with distinct keys keeps the keys distinct when
      every key of the second starts with a letter no key of the first
      starts with. */
  lemma KeysDistinctJoin(a: seq<MetricDef>, b: seq<MetricDef>, tags: set<char>, tag: char)
    requires KeysDistinct(a) && KeysDistinct(b) && Tagged(b, tag)
    requires forall d :: d in a ==> |d.key| > 0 && d.key[0] in tags
    requires tag !in tags
    ensures KeysDistinct(a + b)
    ensures forall d :: d in a + b ==> |d.key| > 0 && d.key[0] in tags + {tag}
  {
    var all := a + b;
    forall i, j | 0 <= i < j < |all| ensures all[i].key != all[j].key {
      if j < |a| {
        assert all[i] == a[i] && all[j] == a[j];
      } else if i >= |a| {
        assert all[i] == b[i - |a|] && all[j] == b[j - |a|];
      } else {
        assert all[i] == a[i] && a[i] in a;
        assert all[j] == b[j - |a|] && b[j - |a|] in b;
      }
    }
  }

  /** Six lists with distinct keys, each tagged with its own letter, join
      into one list with distinct keys. */
  lemma KeysDistinctSix(m0: seq<MetricDef>, m1: seq<MetricDef>, m2: seq<MetricDef>,
                        m3: seq<MetricDef>, m4: seq<MetricDef>, m5: seq<MetricDef>,
                        tags: string)
    requires |tags| == 6
    requires forall i, j :: 0 <= i < j < 6 ==> tags[i] != tags[j]
    requires KeysDistinct(m0) && Tagged(m0, tags[0])
    requires KeysDistinct(m1) && Tagged(m1, tags[1])
    requires KeysDistinct(m2) && Tagged(m2, tags[2])
    requires KeysDistinct(m3) && Tagged(m3, tags[3])
    requires KeysDistinct(m4) && Tagged(m4, tags[4])
    requires KeysDistinct(m5) && Tagged(m5, tags[5])
    ensures KeysDistinct(m0 + m1 + m2 + m3 + m4 + m5)
  {
    KeysDistinctJoin(m0, m1, {tags[0]}, tags[1]);
    KeysDistinctJoin(m0 + m1, m2, {tags[0], tags[1]}, tags[2]);
    KeysDistinctJoin(m0 + m1 + m2, m3, {tags[0], tags[1], tags[2]}, tags[3]);
    KeysDistinctJoin(m0 + m1 + m2 + m3, m4, {tags[0], tags[1], tags[2], tags[3]}, tags[4]);
    KeysDistinctJoin(m0 + m1 + m2 + m3 + m4, m5,
                     {tags[0], tags[1], tags[2], tags[3], tags[4]}, tags[5]);
  }

  /** `Flatten` of six groups joins their metric lists. */
  lemma FlattenSix(g0: MetricGroup, g1: MetricGroup, g2: MetricGroup,
                   g3: MetricGroup, g4: MetricGroup, g5: MetricGroup)
    ensures Flatten([g0, g1, g2, g3, g4, g5]) ==
            g0.metrics + g1.metrics + g2.metrics + g3.metrics + g4.metrics + g5.metrics
  {
    var gs := [g0, g1, g2, g3, g4, g5];
    assert gs[..0] == [];
    FlattenStep(gs, 0);
    FlattenStep(gs, 1);
    FlattenStep(gs, 2);
    FlattenStep(gs, 3);
    FlattenStep(gs, 4);
    FlattenStep(gs, 5);
    assert gs[..6] == gs;
  }
}
