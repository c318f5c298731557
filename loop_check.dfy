/** IsInLoop of src/Neat.Core/Evolution/EvolutionService.cs: a backward walk
    over every synapse (enabled or not) from a neuron, which answers true as
    soon as it meets a neuron already on the visited list. */
module LoopChecks {
  import opened Genomes

  /** Some synapse runs from `a` to `b`. */
  predicate Edge(synapses: seq<Synapse>, a: nat, b: nat)
  {
    exists k :: 0 <= k < |synapses| && synapses[k].inputNeuronId == a && synapses[k].outputNeuronId == b
  }

  /** A non-empty chain of neurons, each joined to the next by a synapse. */
  predicate Path(synapses: seq<Synapse>, p: seq<nat>)
  {
    |p| > 0 && forall i :: 0 <= i < |p| - 1 ==> Edge(synapses, p[i], p[i + 1])
  }

  /** Every neuron some synapse starts from. */
  function Sources(synapses: seq<Synapse>): set<nat>
  {
    set s | s in synapses :: s.inputNeuronId
  }

  /** The input neurons of the synapses into `target`, in synapse order. */
  function Feeders(synapses: seq<Synapse>, target: nat): (r: seq<nat>)
    ensures forall id :: id in r <==> Edge(synapses, id, target)
    ensures forall id :: id in r ==> id in Sources(synapses)
  {
    if |synapses| == 0 then []
    else
      var rest := Feeders(synapses[1..], target);
      assert forall a :: Edge(synapses, a, target) <==>
        (synapses[0].inputNeuronId == a && synapses[0].outputNeuronId == target) || Edge(synapses[1..], a, target) by {
        forall a | Edge(synapses, a, target) && !(synapses[0].inputNeuronId == a && synapses[0].outputNeuronId == target)
          ensures Edge(synapses[1..], a, target)
        {
          var k :| 0 <= k < |synapses| && synapses[k].inputNeuronId == a && synapses[k].outputNeuronId == target;
          assert synapses[1..][k - 1] == synapses[k];
        }
        forall a | Edge(synapses[1..], a, target)
          ensures Edge(synapses, a, target)
        {
          var k :| 0 <= k < |synapses[1..]| && synapses[1..][k].inputNeuronId == a && synapses[1..][k].outputNeuronId == target;
          assert synapses[k + 1] == synapses[1..][k];
        }
      }
      assert Sources(synapses) == {synapses[0].inputNeuronId} + Sources(synapses[1..]);
      if synapses[0].outputNeuronId == target then [synapses[0].inputNeuronId] + rest else rest
  }

  /** Each step of the walk visits one more neuron, so the unvisited part of
      the finite set of synapse sources (and the start) shrinks. */
  lemma MeasureDrops(sources: set<nat>, visited: set<nat>, source: nat)
    requires source !in visited
    ensures |sources - (visited + {source})| < |(sources + {source}) - visited|
  {
    var before := (sources + {source}) - visited;
    var after := sources - (visited + {source});
    assert after == before - {source};
  }

  /** IsInLoop(child, source, visited): true when `source` is on the visited
      list, false when no synapse enters it, and otherwise whether the walk
      from any of its feeders (with `source` now visited) is. */
  function IsInLoop(synapses: seq<Synapse>, source: nat, visited: set<nat>): bool
    decreases |(Sources(synapses) + {source}) - visited|, 0, 0
  {
    if source in visited then true
    else
      var feeders := Feeders(synapses, source);
      if |feeders| == 0 then false
      else
        MeasureDrops(Sources(synapses), visited, source);
        AnyInLoop(synapses, feeders, visited + {source})
  }

  /** `Any` over the feeders. */
  function AnyInLoop(synapses: seq<Synapse>, ids: seq<nat>, visited: set<nat>): bool
    requires forall id :: id in ids ==> id in Sources(synapses)
    decreases |Sources(synapses) - visited|, 1, |ids|
  {
    if |ids| == 0 then false
    else
      assert Sources(synapses) + {ids[0]} == Sources(synapses);
      IsInLoop(synapses, ids[0], visited) || AnyInLoop(synapses, ids[1..], visited)
  }

  lemma {:induction false} AnyInLoopSome(synapses: seq<Synapse>, ids: seq<nat>, visited: set<nat>) returns (x: nat)
    requires forall id :: id in ids ==> id in Sources(synapses)
    requires AnyInLoop(synapses, ids, visited)
    ensures x in ids && IsInLoop(synapses, x, visited)
  {
    if IsInLoop(synapses, ids[0], visited) {
      x := ids[0];
    } else {
      x := AnyInLoopSome(synapses, ids[1..], visited);
    }
  }

  lemma {:induction false} AnyInLoopOf(synapses: seq<Synapse>, ids: seq<nat>, visited: set<nat>, x: nat)
    requires forall id :: id in ids ==> id in Sources(synapses)
    requires x in ids && IsInLoop(synapses, x, visited)
    ensures AnyInLoop(synapses, ids, visited)
  {
    if ids[0] != x {
      AnyInLoopOf(synapses, ids[1..], visited, x);
    }
  }

  /** A chain into `source` that starts at a visited neuron, or at a neuron
      it passes again, makes IsInLoop answer true: with LoopIsPath, IsInLoop
      is true exactly when such a chain exists. */
  lemma {:induction false} PathIsLoop(synapses: seq<Synapse>, p: seq<nat>, visited: set<nat>)
    requires Path(synapses, p) && (p[0] in visited || p[0] in p[1..])
    ensures IsInLoop(synapses, p[|p| - 1], visited)
    decreases |p|
  {
    var source := p[|p| - 1];
    if source !in visited {
      assert |p| > 1;
      var previous := p[..|p| - 1];
      assert Path(synapses, previous);
      assert previous[0] in visited + {source} || previous[0] in previous[1..] by {
        if p[0] !in visited {
          var j :| 0 <= j < |p[1..]| && p[1..][j] == p[0];
          if j + 1 < |p| - 1 {
            assert previous[1..][j] == p[0];
          } else {
            assert p[0] == source;
          }
        }
      }
      PathIsLoop(synapses, previous, visited + {source});
      var feeders := Feeders(synapses, source);
      assert Edge(synapses, p[|p| - 2], source);
      AnyInLoopOf(synapses, feeders, visited + {source}, p[|p| - 2]);
    }
  }

  /** When IsInLoop answers true there is a chain into `source` that starts
      at a visited neuron or at a neuron it passes again: any cycle upstream
      of `source` counts, not only one through the visited list. */
  lemma {:induction false} LoopIsPath(synapses: seq<Synapse>, source: nat, visited: set<nat>) returns (p: seq<nat>)
    requires IsInLoop(synapses, source, visited)
    ensures Path(synapses, p) && p[|p| - 1] == source
    ensures p[0] in visited || p[0] in p[1..]
    decreases |(Sources(synapses) + {source}) - visited|
  {
    if source in visited {
      p := [source];
    } else {
      var feeders := Feeders(synapses, source);
      var x := AnyInLoopSome(synapses, feeders, visited + {source});
      MeasureDrops(Sources(synapses), visited, source);
      assert Sources(synapses) + {x} == Sources(synapses);
      var q := LoopIsPath(synapses, x, visited + {source});
      p := q + [source];
      assert forall i :: 0 <= i < |q| ==> p[i] == q[i];
      assert p[|q| - 1] == x && Edge(synapses, x, source);
      assert q[1..] + [source] == p[1..];
    }
  }

  /** The check AddSynapse makes before it connects `source` to `target`:
      when it answers false, no chain of synapses leads from `target` back to
      `source`, so the new synapse closes no cycle (and `target` is not
      `source`). */
  lemma NoLoopNoPath(synapses: seq<Synapse>, source: nat, target: nat, p: seq<nat>)
    requires !IsInLoop(synapses, source, {target})
    ensures !(Path(synapses, p) && p[0] == target && p[|p| - 1] == source)
  {
    if Path(synapses, p) && p[0] == target && p[|p| - 1] == source {
      PathIsLoop(synapses, p, {target});
    }
  }

  /** A chain that comes back to where it started. */
  predicate Cycle(synapses: seq<Synapse>, p: seq<nat>)
  {
    Path(synapses, p) && |p| > 1 && p[0] == p[|p| - 1]
  }

  ghost predicate Acyclic(synapses: seq<Synapse>)
  {
    forall p :: !Cycle(synapses, p)
  }

  lemma EdgeAppended(synapses: seq<Synapse>, s: Synapse, a: nat, b: nat)
    ensures Edge(synapses + [s], a, b) <==> Edge(synapses, a, b) || (a == s.inputNeuronId && b == s.outputNeuronId)
  {
    var all := synapses + [s];
    if Edge(all, a, b) && !(a == s.inputNeuronId && b == s.outputNeuronId) {
      var k :| 0 <= k < |all| && all[k].inputNeuronId == a && all[k].outputNeuronId == b;
      assert k < |synapses| && synapses[k] == all[k];
    }
    if Edge(synapses, a, b) {
      var k :| 0 <= k < |synapses| && synapses[k].inputNeuronId == a && synapses[k].outputNeuronId == b;
      assert all[k] == synapses[k];
    }
    if a == s.inputNeuronId && b == s.outputNeuronId {
      assert all[|synapses|] == s;
    }
  }

  /** A chain over the extended synapses that leaves the new synapse's input
      neuron nowhere but at its end runs over the old synapses only. */
  lemma OldPath(synapses: seq<Synapse>, s: Synapse, q: seq<nat>)
    requires Path(synapses + [s], q)
    requires forall i :: 0 <= i < |q| - 1 ==> q[i] != s.inputNeuronId
    ensures Path(synapses, q)
  {
    forall i | 0 <= i < |q| - 1
      ensures Edge(synapses, q[i], q[i + 1])
    {
      EdgeAppended(synapses, s, q[i], q[i + 1]);
    }
  }

  /** A chain over the extended synapses from `s`'s output to its input
      contains one over the old synapses. */
  lemma {:induction false} ShortestBack(synapses: seq<Synapse>, s: Synapse, q: seq<nat>) returns (r: seq<nat>)
    requires Path(synapses + [s], q) && q[0] == s.outputNeuronId && q[|q| - 1] == s.inputNeuronId
    ensures Path(synapses, r) && r[0] == s.outputNeuronId && r[|r| - 1] == s.inputNeuronId
  {
    var f :| 0 <= f < |q| && q[f] == s.inputNeuronId && forall i :: 0 <= i < f ==> q[i] != s.inputNeuronId by {
      FirstOccurrence(q, s.inputNeuronId);
    }
    r := q[..f + 1];
    assert Path(synapses + [s], r) by {
      forall i | 0 <= i < |r| - 1
        ensures Edge(synapses + [s], r[i], r[i + 1])
      {
        assert r[i] == q[i] && r[i + 1] == q[i + 1];
      }
    }
    OldPath(synapses, s, r);
  }

  lemma FirstOccurrence(q: seq<nat>, x: nat)
    requires x in q
    ensures exists f :: 0 <= f < |q| && q[f] == x && forall i :: 0 <= i < f ==> q[i] != x
  {
    var f := 0;
    while q[f] != x
      invariant 0 <= f < |q| && x in q[f..]
      invariant forall i :: 0 <= i < f ==> q[i] != x
      decreases |q| - f
    {
      f := f + 1;
    }
  }

  /** Reading a cycle that passes from `a` to `b` the other way round gives a
      chain from `b` back to `a`. */
  lemma Rotate(synapses: seq<Synapse>, p: seq<nat>, j: nat) returns (q: seq<nat>)
    requires Cycle(synapses, p) && j < |p| - 1
    ensures Path(synapses, q) && q[0] == p[j + 1] && q[|q| - 1] == p[j]
  {
    q := p[j + 1..] + p[1..j + 1];
    var n := |p| - j - 1;
    forall i | 0 <= i < |q| - 1
      ensures Edge(synapses, q[i], q[i + 1])
    {
      if i < n - 1 {
        assert q[i] == p[j + 1 + i] && q[i + 1] == p[j + 2 + i];
      } else if i == n - 1 {
        assert q[i] == p[0] && q[i + 1] == p[1];
      } else {
        assert q[i] == p[i - n + 1] && q[i + 1] == p[i - n + 2];
      }
    }
  }

  /** The point of the check in AddSynapse: a synapse from `a` to `b` added
      to an acyclic network with no chain from `b` back to `a` leaves it
      acyclic. */
  lemma AddEdgeAcyclic(synapses: seq<Synapse>, s: Synapse)
    requires Acyclic(synapses)
    requires forall p :: !(Path(synapses, p) && p[0] == s.outputNeuronId && p[|p| - 1] == s.inputNeuronId)
    ensures Acyclic(synapses + [s])
  {
    var all := synapses + [s];
    forall p | Cycle(all, p)
      ensures false
    {
      if j :| 0 <= j < |p| - 1 && p[j] == s.inputNeuronId && p[j + 1] == s.outputNeuronId {
        var q := Rotate(all, p, j);
        var r := ShortestBack(synapses, s, q);
      } else {
        forall i | 0 <= i < |p| - 1
          ensures Edge(synapses, p[i], p[i + 1])
        {
          EdgeAppended(synapses, s, p[i], p[i + 1]);
        }
        assert Cycle(synapses, p);
      }
    }
  }

  /** Dropping synapses never closes a cycle. */
  lemma SubsetAcyclic(all: seq<Synapse>, kept: seq<Synapse>)
    requires forall s :: s in kept ==> s in all
    requires Acyclic(all)
    ensures Acyclic(kept)
  {
    forall p | Path(kept, p)
      ensures !Cycle(kept, p)
    {
      forall i | 0 <= i < |p| - 1
        ensures Edge(all, p[i], p[i + 1])
      {
        assert Edge(kept, p[i], p[i + 1]);
        var k :| 0 <= k < |kept| && kept[k].inputNeuronId == p[i] && kept[k].outputNeuronId == p[i + 1];
        assert kept[k] in all;
        var j :| 0 <= j < |all| && all[j] == kept[k];
      }
      assert !Cycle(all, p);
    }
  }

  /** A chain grows by one synapse out of its last neuron. */
  lemma PathExtended(synapses: seq<Synapse>, p: seq<nat>, x: nat)
    requires Path(synapses, p)
    ensures Edge(synapses, p[|p| - 1], x) ==> Path(synapses, p + [x])
  {
    var q := p + [x];
    if Edge(synapses, p[|p| - 1], x) {
      forall i | 0 <= i < |q| - 1
        ensures Edge(synapses, q[i], q[i + 1])
      {
        if i < |p| - 1 {
          assert q[i] == p[i] && q[i + 1] == p[i + 1];
        }
      }
    }
  }
}
