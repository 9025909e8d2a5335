/** Walks and cycles in a finite relation, and how they travel along an injective renaming. */
module Walks {
  type Edge = (string, string)

  ghost predicate IsWalk(edges: set<Edge>, p: seq<string>) {
    |p| >= 2 && forall i :: 0 <= i < |p| - 1 ==> (p[i], p[i + 1]) in edges
  }

  /** `a` comes before `b` through one or more edges. */
  ghost predicate Leads(edges: set<Edge>, a: string, b: string) {
    exists p :: IsWalk(edges, p) && p[0] == a && p[|p| - 1] == b
  }

  ghost predicate Cyclic(edges: set<Edge>) {
    exists v :: Leads(edges, v, v)
  }

  ghost predicate Injective(m: map<string, string>) {
    forall a, b :: a in m && b in m && m[a] == m[b] ==> a == b
  }

  /** The edges of `edges` under the renaming `m`. */
  ghost predicate IsImage(edges: set<Edge>, m: map<string, string>, image: set<Edge>) {
    && (forall e <- edges :: e.0 in m && e.1 in m && (m[e.0], m[e.1]) in image)
    && (forall f <- image :: exists e <- edges :: f == (m[e.0], m[e.1]))
  }

  lemma NodesNamed(edges: set<Edge>, m: map<string, string>, image: set<Edge>, p: seq<string>)
    requires IsImage(edges, m, image) && IsWalk(edges, p)
    ensures forall i :: 0 <= i < |p| ==> p[i] in m
  {
    forall i | 0 <= i < |p|
      ensures p[i] in m
    {
      var k := if i == 0 then 0 else i - 1;
      assert (p[k], p[k + 1]) in edges;
    }
  }

  lemma WalkMaps(edges: set<Edge>, m: map<string, string>, image: set<Edge>, a: string, b: string)
    requires IsImage(edges, m, image) && Leads(edges, a, b)
    ensures a in m && b in m && Leads(image, m[a], m[b])
  {
    var p :| IsWalk(edges, p) && p[0] == a && p[|p| - 1] == b;
    NodesNamed(edges, m, image, p);
    var q := seq(|p|, i requires 0 <= i < |p| => m[p[i]]);
    forall i | 0 <= i < |q| - 1
      ensures (q[i], q[i + 1]) in image
    {
      assert (p[i], p[i + 1]) in edges;
    }
    assert IsWalk(image, q);
  }

  lemma NameOf(edges: set<Edge>, m: map<string, string>, image: set<Edge>, f: Edge) returns (e: Edge)
    requires IsImage(edges, m, image) && f in image
    ensures e in edges && f == (m[e.0], m[e.1])
  {
    e :| e in edges && f == (m[e.0], m[e.1]);
  }

  lemma {:induction false} WalkMapsBack(edges: set<Edge>, m: map<string, string>, image: set<Edge>, q: seq<string>)
      returns (p: seq<string>)
    requires IsImage(edges, m, image) && Injective(m) && IsWalk(image, q)
    ensures IsWalk(edges, p) && |p| == |q| && forall i :: 0 <= i < |p| ==> p[i] in m && m[p[i]] == q[i]
    decreases |q|
  {
    assert (q[0], q[1]) in image;
    var e := NameOf(edges, m, image, (q[0], q[1]));
    if |q| == 2 {
      p := [e.0, e.1];
    } else {
      var rest := q[1..];
      forall i | 0 <= i < |rest| - 1
        ensures (rest[i], rest[i + 1]) in image
      {
        assert (q[i + 1], q[i + 2]) in image;
      }
      var tail := WalkMapsBack(edges, m, image, rest);
      assert tail[0] == e.1;
      p := [e.0] + tail;
    }
  }

  lemma LeadsMapsBack(edges: set<Edge>, m: map<string, string>, image: set<Edge>, a: string, b: string)
    requires IsImage(edges, m, image) && Injective(m) && a in m && b in m && Leads(image, m[a], m[b])
    ensures Leads(edges, a, b)
  {
    var q :| IsWalk(image, q) && q[0] == m[a] && q[|q| - 1] == m[b];
    var p := WalkMapsBack(edges, m, image, q);
    hide IsImage, IsWalk;
    assert p[0] == a && p[|p| - 1] == b;
  }

  /** A renaming keeps and reflects which comes before which. */
  lemma LeadsIffImage(edges: set<Edge>, m: map<string, string>, image: set<Edge>, a: string, b: string)
    requires IsImage(edges, m, image) && Injective(m) && a in m && b in m
    ensures Leads(image, m[a], m[b]) <==> Leads(edges, a, b)
  {
    hide IsImage, Injective, Leads;
    if Leads(edges, a, b) {
      WalkMaps(edges, m, image, a, b);
    }
    if Leads(image, m[a], m[b]) {
      LeadsMapsBack(edges, m, image, a, b);
    }
  }

  lemma CyclicIffImage(edges: set<Edge>, m: map<string, string>, image: set<Edge>)
    requires IsImage(edges, m, image) && Injective(m)
    ensures Cyclic(image) <==> Cyclic(edges)
  {
    if Cyclic(edges) {
      var v :| Leads(edges, v, v);
      WalkMaps(edges, m, image, v, v);
    }
    if Cyclic(image) {
      var w :| Leads(image, w, w);
      var q :| IsWalk(image, q) && q[0] == w && q[|q| - 1] == w;
      var p := WalkMapsBack(edges, m, image, q);
      assert p[0] == p[|p| - 1];
      assert Leads(edges, p[0], p[0]);
    }
  }

  lemma LeadsMonotone(few: set<Edge>, many: set<Edge>, a: string, b: string)
    requires few <= many && Leads(few, a, b)
    ensures Leads(many, a, b)
  {
    var p :| IsWalk(few, p) && p[0] == a && p[|p| - 1] == b;
    assert IsWalk(many, p);
  }

  /** A walk that starts inside a set no edge of which leads out stays inside. */
  lemma StaysInside(edges: set<Edge>, inside: set<string>, p: seq<string>)
    requires IsWalk(edges, p) && p[0] in inside
    requires forall e <- edges :: e.0 in inside ==> e.1 in inside
    ensures forall v <- p :: v in inside
  {
    forall n: nat | n < |p|
      ensures p[n] in inside
    {
      StepsInside(edges, inside, p, n);
    }
  }

  lemma {:induction false} StepsInside(edges: set<Edge>, inside: set<string>, p: seq<string>, n: nat)
    requires IsWalk(edges, p) && p[0] in inside && n < |p|
    requires forall e <- edges :: e.0 in inside ==> e.1 in inside
    ensures p[n] in inside
    decreases n
  {
    if n > 0 {
      StepsInside(edges, inside, p, n - 1);
      assert (p[n - 1], p[n]) in edges;
    }
  }

  /**
   Adding edges that only ever leave new nodes for new nodes, to edges that know only old ones, can
   make a cycle only among the new edges.
   */
  lemma CycleOldOrNew(known: set<Edge>, added: set<Edge>, novel: set<string>)
    requires forall e <- known :: e.0 !in novel && e.1 !in novel
    requires forall e <- added :: e.0 in novel && e.1 in novel
    ensures Cyclic(known + added) <==> Cyclic(known) || Cyclic(added)
  {
    var all := known + added;
    if Cyclic(all) {
      var v :| Leads(all, v, v);
      var p :| IsWalk(all, p) && p[0] == v && p[|p| - 1] == v;
      if v in novel {
        StaysInside(all, novel, p);
        forall i | 0 <= i < |p| - 1
          ensures (p[i], p[i + 1]) in added
        {
          assert p[i] in p && (p[i], p[i + 1]) in all;
        }
        assert IsWalk(added, p);
        assert Leads(added, v, v);
      } else {
        var others := (set e | e in all :: e.0) + (set e | e in all :: e.1) + {v} - novel;
        StaysInside(all, others, p);
        forall i | 0 <= i < |p| - 1
          ensures (p[i], p[i + 1]) in known
        {
          assert p[i] in p && (p[i], p[i + 1]) in all;
        }
        assert IsWalk(known, p);
        assert Leads(known, v, v);
      }
    }
    if Cyclic(known) {
      var v :| Leads(known, v, v);
      LeadsMonotone(known, all, v, v);
    }
    if Cyclic(added) {
      var v :| Leads(added, v, v);
      LeadsMonotone(added, all, v, v);
    }
  }

  /** Edges into a node that has none of its own close no cycle. */
  lemma SinkAddsNoCycle(edges: set<Edge>, toSink: set<Edge>, sink: string)
    requires forall e <- toSink :: e.1 == sink && e.0 != sink
    requires forall e <- edges :: e.0 != sink
    ensures Cyclic(edges + toSink) <==> Cyclic(edges)
  {
    var all := edges + toSink;
    if Cyclic(all) {
      var v :| Leads(all, v, v);
      var p :| IsWalk(all, p) && p[0] == v && p[|p| - 1] == v;
      forall i | 0 <= i < |p| - 1
        ensures (p[i], p[i + 1]) in edges
      {
        var j := if i + 1 == |p| - 1 then 0 else i + 1;
        assert (p[j], p[j + 1]) in all && p[j] == p[i + 1];
        assert (p[i], p[i + 1]) in all;
      }
      assert IsWalk(edges, p);
      assert Leads(edges, v, v);
    }
    if Cyclic(edges) {
      var v :| Leads(edges, v, v);
      LeadsMonotone(edges, all, v, v);
    }
  }
}
