/**
 The snapshot the daemon publishes (internal/state/current.go:377-443) and the display's rules for
 taking one over (internal/protocol/validate.go:81-139, 217-254). The time of generation is left out:
 it is not part of a snapshot's identity.
 */
module Snapshots {
  import opened Wrappers
  import opened Protocol
  import opened CurrentState
  import StateRuns

  datatype Snapshot = Snapshot(
    epoch: string, version: nat, sourceNode: string,
    metrics: seq<Metric>, health: seq<Health>, nodes: seq<Node>, services: seq<Service>)

  // ----- the order of entries -----

  datatype Key = Key(order: int, id: string)

  // Go's order of strings.
  predicate TextLess(a: string, b: string) {
    b != [] && (a == [] || a[0] < b[0] || (a[0] == b[0] && TextLess(a[1..], b[1..])))
  }

  predicate Less(a: Key, b: Key) {
    a.order < b.order || (a.order == b.order && TextLess(a.id, b.id))
  }

  lemma {:induction false} TextTotal(a: string, b: string)
    ensures a == b || TextLess(a, b) || TextLess(b, a)
    ensures !(TextLess(a, b) && TextLess(b, a)) && !TextLess(a, a)
    decreases |a| + |b|
  {
    if a != [] && b != [] {
      TextTotal(a[1..], b[1..]);
      assert a == [a[0]] + a[1..] && b == [b[0]] + b[1..];
    }
    if a != [] && b == [] {
      TextTotal(a[1..], []);
    }
  }

  lemma {:induction false} TextTransitive(a: string, b: string, c: string)
    requires TextLess(a, b) && TextLess(b, c)
    ensures TextLess(a, c)
    decreases |a|
  {
    if a != [] && a[0] == b[0] == c[0] {
      TextTransitive(a[1..], b[1..], c[1..]);
    }
  }

  lemma LessIsStrict(a: Key, b: Key)
    ensures a == b || Less(a, b) || Less(b, a)
    ensures !(Less(a, b) && Less(b, a)) && !Less(a, a)
  {
    TextTotal(a.id, b.id);
    TextTotal(a.id, a.id);
  }

  lemma LessTransitive(a: Key, b: Key, c: Key)
    requires Less(a, b) && Less(b, c)
    ensures Less(a, c)
  {
    if a.order == b.order == c.order {
      TextTransitive(a.id, b.id, c.id);
    }
  }

  // ----- sorted listings of a map -----

  ghost predicate Sorted<T(!new)>(xs: seq<T>, key: T -> Key) {
    forall i, j :: 0 <= i < j < |xs| ==> Less(key(xs[i]), key(xs[j]))
  }

  // The values of the map, each once, in ascending order.
  ghost predicate Lists<T(!new)>(xs: seq<T>, m: map<string, T>, key: T -> Key) {
    Sorted(xs, key) && forall x :: x in xs <==> exists id <- m :: m[id] == x
  }

  lemma SmallestFirst<T(!new)>(xs: seq<T>, ys: seq<T>, key: T -> Key)
    requires Sorted(xs, key) && Sorted(ys, key) && xs != [] && ys != []
    requires forall x :: x in xs <==> x in ys
    ensures xs[0] == ys[0]
  {
    assert xs[0] in ys && ys[0] in xs;
    var j :| 0 <= j < |ys| && ys[j] == xs[0];
    var i :| 0 <= i < |xs| && xs[i] == ys[0];
    LessIsStrict(key(xs[0]), key(ys[0]));
  }

  lemma TailsAgree<T(!new)>(xs: seq<T>, ys: seq<T>, key: T -> Key)
    requires Sorted(xs, key) && Sorted(ys, key) && xs != [] && ys != [] && xs[0] == ys[0]
    requires forall x :: x in xs <==> x in ys
    ensures Sorted(xs[1..], key) && Sorted(ys[1..], key)
    ensures forall x :: x in xs[1..] <==> x in ys[1..]
  {
    RestExcludesFirst(xs, key);
    RestExcludesFirst(ys, key);
  }

  lemma RestExcludesFirst<T(!new)>(xs: seq<T>, key: T -> Key)
    requires Sorted(xs, key) && xs != []
    ensures forall x :: x in xs[1..] <==> x in xs && x != xs[0]
  {
    forall i | 0 < i < |xs|
      ensures xs[i] != xs[0]
    {
      LessIsStrict(key(xs[0]), key(xs[i]));
    }
    assert xs == [xs[0]] + xs[1..];
  }

  // Two sorted sequences with the same elements are the same sequence.
  lemma {:induction false} SortedUnique<T(!new)>(xs: seq<T>, ys: seq<T>, key: T -> Key)
    requires Sorted(xs, key) && Sorted(ys, key) && forall x :: x in xs <==> x in ys
    ensures xs == ys
    decreases |xs|
  {
    assert ys != [] ==> ys[0] in ys;
    if xs != [] {
      assert xs[0] in ys;
      SmallestFirst(xs, ys, key);
      TailsAgree(xs, ys, key);
      SortedUnique(xs[1..], ys[1..], key);
      assert xs == [xs[0]] + xs[1..] && ys == [ys[0]] + ys[1..];
    }
  }

  // Inserting keeps a sequence sorted. The position is that of the first larger key.
  method Insert<T(!new)>(xs: seq<T>, x: T, key: T -> Key) returns (r: seq<T>)
    requires Sorted(xs, key) && forall y <- xs :: key(y) != key(x)
    ensures Sorted(r, key) && forall y :: y in r <==> y in xs || y == x
  {
    var i := 0;
    while i < |xs| && Less(key(xs[i]), key(x))
      invariant i <= |xs| && forall k :: 0 <= k < i ==> Less(key(xs[k]), key(x))
    {
      i := i + 1;
    }
    r := xs[..i] + [x] + xs[i..];
    forall k | i <= k < |xs|
      ensures Less(key(x), key(xs[k]))
    {
      LessIsStrict(key(xs[i]), key(x));
      if k > i {
        LessTransitive(key(x), key(xs[i]), key(xs[k]));
      }
    }
    InsertedSorted(xs, i, x, key);
    InsertedElements(xs, i, x);
  }

  lemma InsertedSorted<T(!new)>(xs: seq<T>, i: nat, x: T, key: T -> Key)
    requires Sorted(xs, key) && i <= |xs|
    requires forall k :: 0 <= k < i ==> Less(key(xs[k]), key(x))
    requires forall k :: i <= k < |xs| ==> Less(key(x), key(xs[k]))
    ensures Sorted(xs[..i] + [x] + xs[i..], key)
  {
    var r := xs[..i] + [x] + xs[i..];
    assert forall k :: 0 <= k < |r| ==> r[k] == if k < i then xs[k] else if k == i then x else xs[k - 1];
  }

  lemma InsertedElements<T>(xs: seq<T>, i: nat, x: T)
    requires i <= |xs|
    ensures forall y :: y in xs[..i] + [x] + xs[i..] <==> y in xs || y == x
  {
    assert xs == xs[..i] + xs[i..];
  }

  // Collects the values of a map, in whatever order it yields its keys, and sorts them.
  method SortedValues<T(!new)>(m: map<string, T>, key: T -> Key) returns (xs: seq<T>)
    requires forall id <- m :: key(m[id]).id == id
    ensures Lists(xs, m, key)
  {
    xs := [];
    var todo := m.Keys;
    while todo != {}
      invariant todo <= m.Keys && Sorted(xs, key)
      invariant forall x :: x in xs <==> exists id <- m :: id !in todo && m[id] == x
      decreases todo
    {
      var id :| id in todo;
      forall y <- xs
        ensures key(y) != key(m[id])
      {
        var other :| other in m && other !in todo && m[other] == y;
        assert key(m[other]).id == other;
      }
      var before := xs;
      xs := Insert(xs, m[id], key);
      todo := todo - {id};
    }
  }

  // ----- the snapshot of a state -----

  function MetricKey(m: Metric): Key {
    Key(m.order, m.id)
  }

  function HealthKey(h: Health): Key {
    Key(0, h.connectorId)
  }

  function NodeKey(n: Node): Key {
    Key(n.order, n.id)
  }

  function ServiceKey(s: Service): Key {
    Key(s.order, s.id)
  }

  ghost predicate IsSnapshotOf(p: Snapshot, epoch: string, sourceNode: string, s: State) {
    && p.epoch == epoch && p.sourceNode == sourceNode && p.version == s.version
    && Lists(p.metrics, s.metrics, MetricKey) && Lists(p.health, s.health, HealthKey)
    && Lists(p.nodes, s.nodes, NodeKey) && Lists(p.services, s.services, ServiceKey)
  }

  method MakeSnapshot(epoch: string, sourceNode: string, current: Current) returns (p: Snapshot)
    requires current.View().Valid()
    ensures IsSnapshotOf(p, epoch, sourceNode, current.View())
  {
    var metrics := SortedValues(current.metrics, MetricKey);
    var health := SortedValues(current.health, HealthKey);
    var nodes := SortedValues(current.nodes, NodeKey);
    var services := SortedValues(current.services, ServiceKey);
    p := Snapshot(epoch, current.version, sourceNode, metrics, health, nodes, services);
  }

  lemma ListsUnique<T(!new)>(xs: seq<T>, ys: seq<T>, m: map<string, T>, key: T -> Key)
    requires Lists(xs, m, key) && Lists(ys, m, key)
    ensures xs == ys
  {
    SortedUnique(xs, ys, key);
  }

  // A snapshot depends on nothing but the state.
  lemma SnapshotUnique(p: Snapshot, q: Snapshot, epoch: string, sourceNode: string, s: State)
    requires IsSnapshotOf(p, epoch, sourceNode, s) && IsSnapshotOf(q, epoch, sourceNode, s)
    ensures p == q
  {
    ListsUnique(p.metrics, q.metrics, s.metrics, MetricKey);
    ListsUnique(p.health, q.health, s.health, HealthKey);
    ListsUnique(p.nodes, q.nodes, s.nodes, NodeKey);
    ListsUnique(p.services, q.services, s.services, ServiceKey);
  }

  // One text comes before another: it is shorter and a prefix, or smaller at the first difference.
  ghost predicate ComesBefore(a: string, b: string) {
    exists k :: 0 <= k <= |a| && k < |b| && a[..k] == b[..k] && (k == |a| || (k < |a| && a[k] < b[k]))
  }

  lemma {:induction false} TextLessIsBefore(a: string, b: string)
    requires TextLess(a, b)
    ensures ComesBefore(a, b)
    decreases |a|
  {
    if a == [] || a[0] < b[0] {
      assert a[..0] == b[..0];
    } else {
      TextLessIsBefore(a[1..], b[1..]);
      var k :| 0 <= k <= |a[1..]| && k < |b[1..]| && a[1..][..k] == b[1..][..k]
               && (k == |a[1..]| || (k < |a[1..]| && a[1..][k] < b[1..][k]));
      assert a[..k + 1] == [a[0]] + a[1..][..k] && b[..k + 1] == [b[0]] + b[1..][..k];
    }
  }

  // Entries come in ascending order of their position, and at the same position in that of their IDs.
  lemma ListedInOrder<T(!new)>(xs: seq<T>, m: map<string, T>, key: T -> Key, i: nat, j: nat)
    requires Lists(xs, m, key) && i < j < |xs|
    ensures
      var a, b := key(xs[i]), key(xs[j]);
      a.order < b.order || (a.order == b.order && ComesBefore(a.id, b.id))
  {
    if key(xs[i]).order == key(xs[j]).order {
      TextLessIsBefore(key(xs[i]).id, key(xs[j]).id);
    }
  }

  // Two snapshots of one daemon with the same version are identical, which is what makes the epoch
  // and the version an entity tag (RFC 9110 section 8.8.3).
  lemma SameVersionSameSnapshot(epoch: string, sourceNode: string, ops: seq<StateRuns.Op>, i: nat, j: nat, p: Snapshot, q: Snapshot)
    requires i <= j <= |ops|
    requires IsSnapshotOf(p, epoch, sourceNode, StateRuns.Run(EMPTY, ops[..i]))
    requires IsSnapshotOf(q, epoch, sourceNode, StateRuns.Run(EMPTY, ops[..j]))
    ensures p.version <= q.version && (p.version == q.version ==> p == q)
  {
    StateRuns.VersionIdentifiesContent(EMPTY, ops, i, j);
    if p.version == q.version {
      SnapshotUnique(p, q, epoch, sourceNode, StateRuns.Run(EMPTY, ops[..i]));
    }
  }

  // ----- what the display accepts -----

  // MetricSnapshot.Validate, for a supported schema version and a label in order.
  predicate ValidSnapshot(p: Snapshot) {
    && SafeId(p.epoch) && SafeId(p.sourceNode)
    && (forall m <- p.metrics :: ValidMetric(m)) && DistinctMetrics(p.metrics)
    && (forall h <- p.health :: ValidHealth(h))
    && |p.nodes| <= MAX_NODES && (forall n <- p.nodes :: ValidNode(n)) && DistinctNodes(p.nodes)
    && |p.services| <= MAX_SERVICES && (forall v <- p.services :: ValidService(v)) && DistinctServices(p.services)
  }

  // Whether next may replace prev: any snapshot of another epoch, or a newer one of the same.
  predicate Supersedes(prev: Option<Snapshot>, next: Snapshot) {
    prev.None? || prev.value.epoch != next.epoch || next.version > prev.value.version
  }

  lemma ListedIds<T(!new)>(xs: seq<T>, m: map<string, T>, key: T -> Key)
    requires Lists(xs, m, key) && forall id <- m :: key(m[id]).id == id
    ensures forall i, j :: 0 <= i < j < |xs| ==> key(xs[i]).id != key(xs[j]).id
    ensures |xs| == |m|
  {
    forall i, j | 0 <= i < j < |xs|
      ensures key(xs[i]).id != key(xs[j]).id
    {
      assert xs[i] in xs && xs[j] in xs;
      var a :| a in m && m[a] == xs[i];
      var b :| b in m && m[b] == xs[j];
      LessIsStrict(key(xs[i]), key(xs[j]));
    }
    ListedSize(xs, m, key);
  }

  lemma {:induction false} DistinctSize<T>(xs: seq<T>, ids: set<string>, id: T -> string)
    requires forall i, j :: 0 <= i < j < |xs| ==> id(xs[i]) != id(xs[j])
    requires forall s :: s in ids <==> exists x <- xs :: id(x) == s
    ensures |xs| == |ids|
    decreases |xs|
  {
    if xs == [] {
      assert ids == {};
    } else {
      var front, last := xs[..|xs| - 1], xs[|xs| - 1];
      assert xs == front + [last] && last in xs;
      forall s
        ensures s in ids - {id(last)} <==> exists x <- front :: id(x) == s
      {
        if s in ids - {id(last)} {
          var x :| x in xs && id(x) == s;
          assert x in front;
        }
        if exists x <- front :: id(x) == s {
          var x :| x in front && id(x) == s;
          assert x in xs;
        }
      }
      DistinctSize(front, ids - {id(last)}, id);
    }
  }

  lemma ListedSize<T(!new)>(xs: seq<T>, m: map<string, T>, key: T -> Key)
    requires Lists(xs, m, key) && forall id <- m :: key(m[id]).id == id
    requires forall i, j :: 0 <= i < j < |xs| ==> key(xs[i]).id != key(xs[j]).id
    ensures |xs| == |m|
  {
    var name := (x: T) => key(x).id;
    forall s
      ensures s in m.Keys <==> exists x <- xs :: name(x) == s
    {
      if s in m {
        assert m[s] in xs && name(m[s]) == s;
      }
      if exists x <- xs :: name(x) == s {
        var x :| x in xs && name(x) == s;
        var id :| id in m && m[id] == x;
      }
    }
    DistinctSize(xs, m.Keys, name);
  }

  lemma EntitiesListed(p: Snapshot, s: State)
    requires s.Valid() && IsSnapshotOf(p, p.epoch, p.sourceNode, s)
    ensures DistinctMetrics(p.metrics) && DistinctNodes(p.nodes) && DistinctServices(p.services)
    ensures |p.nodes| == |s.nodes| && |p.services| == |s.services|
  {
    ListedIds(p.metrics, s.metrics, MetricKey);
    ListedIds(p.nodes, s.nodes, NodeKey);
    ListedIds(p.services, s.services, ServiceKey);
  }

  // The display takes a snapshot of a valid state for valid exactly when epoch and source can serve as
  // IDs, and nodes and services are publishable.
  lemma ValidIffPublishable(p: Snapshot, s: State)
    requires s.Valid() && IsSnapshotOf(p, p.epoch, p.sourceNode, s)
    ensures ValidSnapshot(p) <==> SafeId(p.epoch) && SafeId(p.sourceNode) && StateRuns.Publishable(s)
  {
    EntitiesListed(p, s);
    ListedValid(p.metrics, s.metrics, MetricKey, ValidMetric);
    ListedValid(p.health, s.health, HealthKey, ValidHealth);
    ListedValid(p.nodes, s.nodes, NodeKey, ValidNode);
    ListedValid(p.services, s.services, ServiceKey, ValidService);
  }

  lemma ListedValid<T(!new)>(xs: seq<T>, m: map<string, T>, key: T -> Key, valid: T -> bool)
    requires Lists(xs, m, key)
    ensures (forall x <- xs :: valid(x)) <==> forall id <- m :: valid(m[id])
  {
    if forall x <- xs :: valid(x) {
      forall id <- m
        ensures valid(m[id])
      {
        assert m[id] in xs;
      }
    }
    if forall id <- m :: valid(m[id]) {
      forall x <- xs
        ensures valid(x)
      {
        var id :| id in m && m[id] == x;
      }
    }
  }
}
