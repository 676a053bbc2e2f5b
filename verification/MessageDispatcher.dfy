/** Dispatchers that pass registrations on to each other and find the way by what they have learnt. */
module MessageDispatchers {

  import opened DispatcherTree

  class MessageDispatcher {
    var serviceToGateIndex: Table

    constructor ()
      ensures serviceToGateIndex == map[]
    {
      serviceToGateIndex := map[];
    }
  }

  /** The dispatchers of a node and the connections of their gates. */
  class DispatcherNetwork {
    const net: Net
    const dispatchers: seq<MessageDispatcher>
    ghost const up: seq<int>

    ghost predicate Different(v: int, w: int)
      requires 0 <= v < |dispatchers| && 0 <= w < |dispatchers|
    {
      dispatchers[v] == dispatchers[w] ==> v == w
    }

    ghost predicate Valid() {
      && IsTree(net, up)
      && |dispatchers| == |net|
      && forall v, w :: 0 <= v < |dispatchers| && 0 <= w < |dispatchers| ==> Different(v, w)
    }

    ghost function Tables(): (t: seq<Table>)
      reads dispatchers
      ensures |t| == |dispatchers|
      ensures forall w :: 0 <= w < |t| ==> t[w] == dispatchers[w].serviceToGateIndex
    {
      seq(|dispatchers|, w requires 0 <= w < |dispatchers| reads dispatchers => dispatchers[w].serviceToGateIndex)
    }

    constructor (net: Net, dispatchers: seq<MessageDispatcher>, ghost up: seq<int>)
      requires IsTree(net, up) && |dispatchers| == |net|
      requires forall v, w :: 0 <= v < |dispatchers| && 0 <= w < |dispatchers| && dispatchers[v] == dispatchers[w] ==>
          v == w
      ensures Valid() && this.net == net && this.dispatchers == dispatchers && this.up == up
    {
      this.net, this.dispatchers, this.up := net, dispatchers, up;
    }

    /** A registration that enters dispatcher v through its gate out. It is refused if and only if a
        dispatcher in the region already knows the key; otherwise exactly the region learns of it, and every
        dispatcher there the gate that leads back. */
    method HandleRegisterService(v: int, key: Key, out: int) returns (ok: bool)
      requires Valid() && GateOf(net, v, out)
      modifies dispatchers
      ensures ok <==> Fresh(net, up, v, out, key, old(Tables()))
      ensures ok ==> Learnt(net, up, v, out, key, old(Tables()), Tables())
      ensures !ok ==> Partly(net, up, v, out, key, old(Tables()), Tables())
      decreases |Region(net, up, v, out)|
    {
      ghost var before := Tables();
      if key in dispatchers[v].serviceToGateIndex {
        assert InRegion(net, up, v, out, v) && key in before[v];
        return false;
      }
      Enter(v, key, out);
      var size := |net[v]|;
      var i := 0;
      while i < size
        invariant 0 <= i <= size
        invariant Reached(net, up, v, out, key, i, before, Tables())
      {
        if i != out && net[v][i].Dispatcher? {
          ghost var now := Tables();
          Behind(net, up, v, i, v);
          RegionShrinks(net, up, v, out, i);
          ok := HandleRegisterService(net[v][i].at, key, net[v][i].gate);
          if !ok {
            RefusedThere(net, up, v, out, key, i, before, now, Tables());
            return;
          }
          SentOn(net, up, v, out, key, i, before, now, Tables());
        } else {
          NobodyThere(net, up, v, out, key, i, before, Tables());
        }
        i := i + 1;
      }
      AllReached(net, up, v, out, key, before, Tables());
      ok := true;
    }

    /** The entry in the table of the dispatcher that was reached first. */
    method Enter(v: int, key: Key, out: int)
      requires Valid() && GateOf(net, v, out) && key !in dispatchers[v].serviceToGateIndex
      modifies dispatchers[v]
      ensures Reached(net, up, v, out, key, 0, old(Tables()), Tables())
    {
      ghost var before := Tables();
      dispatchers[v].serviceToGateIndex := dispatchers[v].serviceToGateIndex[key := out];
      forall w | 0 <= w < |net| ensures ReachedAt(net, up, v, out, key, 0, w, before[w], Tables()[w]) {
        assert Different(v, w);
      }
    }

    /** From any dispatcher, a packet for a service that was registered at gate g of dispatcher r arrives
        there after fewer hops than there are dispatchers. */
    method Forward(start: int, key: Key, ghost r: int, ghost g: int) returns (v: int, gate: int, hops: nat)
      requires Valid() && Has(net, start) && GateOf(net, r, g) && net[r][g].Endpoint?
      requires forall w :: 0 <= w < |net| ==> KnowsAt(net, up, r, g, key, w, Tables()[w])
      ensures v == r && gate == g && hops < |net|
    {
      v, hops := start, 0;
      AwayBounded(net, up, v, r);
      assert KnowsAt(net, up, r, g, key, v, Tables()[v]);
      gate := dispatchers[v].serviceToGateIndex[key];
      while net[v][gate].Dispatcher?
        invariant Has(net, v) && GateOf(net, v, gate) && gate == GateFor(net, up, r, g, v)
        invariant hops + Away(net, up, v, r) < |net|
        decreases Away(net, up, v, r)
      {
        OneHopCloser(net, up, v, r);
        v, hops := net[v][gate].at, hops + 1;
        assert KnowsAt(net, up, r, g, key, v, Tables()[v]);
        gate := dispatchers[v].serviceToGateIndex[key];
      }
    }
  }

  /** The table of w sends packets for the key towards gate g of dispatcher r. */
  ghost predicate KnowsAt(net: Net, up: seq<int>, r: int, g: int, key: Key, w: int, table: Table)
    requires IsTree(net, up) && Has(net, r) && Has(net, w)
  {
    key in table && table[key] == GateFor(net, up, r, g, w)
  }

  /** After a registration from outside the tree every dispatcher knows the way. */
  lemma RegisteredEverywhere(net: Net, up: seq<int>, r: int, g: int, key: Key, before: seq<Table>, after: seq<Table>)
    requires IsTree(net, up) && GateOf(net, r, g) && net[r][g].Endpoint?
    requires Learnt(net, up, r, g, key, before, after)
    ensures forall w :: 0 <= w < |net| ==> KnowsAt(net, up, r, g, key, w, after[w])
  {
    forall w | 0 <= w < |net| ensures KnowsAt(net, up, r, g, key, w, after[w]) {
      FromOutside(net, up, r, g, w);
      assert LearntAt(net, up, r, g, key, w, before[w], after[w]);
    }
  }

  /** Registrations of other services do not disturb it. */
  lemma OthersKeepTheWay(net: Net, up: seq<int>, r: int, g: int, key: Key, v: int, out: int, other: Key,
                         before: seq<Table>, after: seq<Table>)
    requires IsTree(net, up) && Has(net, r) && Has(net, v) && key != other
    requires Learnt(net, up, v, out, other, before, after)
    requires forall w :: 0 <= w < |net| ==> KnowsAt(net, up, r, g, key, w, before[w])
    ensures forall w :: 0 <= w < |net| ==> KnowsAt(net, up, r, g, key, w, after[w])
  {
    forall w | 0 <= w < |net| ensures KnowsAt(net, up, r, g, key, w, after[w]) {
      assert KnowsAt(net, up, r, g, key, w, before[w]);
      assert LearntAt(net, up, v, out, other, w, before[w], after[w]);
    }
  }

  /** A second registration of a service anywhere in the tree, from outside of it, is refused. */
  lemma OnlyOnce(net: Net, up: seq<int>, r: int, g: int, key: Key, v: int, out: int, tables: seq<Table>)
    requires IsTree(net, up) && Has(net, r) && GateOf(net, v, out) && net[v][out].Endpoint? && |tables| == |net|
    requires forall w :: 0 <= w < |net| ==> KnowsAt(net, up, r, g, key, w, tables[w])
    ensures !Fresh(net, up, v, out, key, tables)
  {
    FromOutside(net, up, v, out, v);
    assert KnowsAt(net, up, r, g, key, v, tables[v]);
  }
}
