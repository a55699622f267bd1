/** The flow-ID index of the server: 65536 bins of contexts, hashed by the low bits of the flow ID. */
module FlowIdMap {

  const NUM_BINS := 65536

  datatype State = Closed | SynSent | SynRcvd | Established | LastAck

  class Context {
    var flowId: nat
    var hostId: seq<bv8>
    var state: State
    var onMap: bool              // tc_onFlowIDMap

    constructor ()
      ensures !onMap && state == Closed && flowId == 0 && hostId == []
    {
      flowId, hostId, state, onMap := 0, [], Closed, false;
    }
  }

  /** What becomes of a SYN. */
  datatype Reply = Resend(ctx: Context) | Reset | Drop | Accept(ctx: Context)

  predicate Distinct(bin: seq<Context>) {
    forall i, j :: 0 <= i < j < |bin| ==> bin[i] != bin[j]
  }

  /** A bin without the context at `k`. */
  function Without(bin: seq<Context>, k: nat): (r: seq<Context>)
    requires Distinct(bin) && k < |bin|
    ensures Distinct(r) && bin[k] !in r
    ensures (forall c :: c in r ==> c in bin) && (forall c :: c in bin && c != bin[k] ==> c in r)
  {
    bin[..k] + bin[k + 1..]
  }

  class Index {
    const bins: array<seq<Context>>
    ghost var contexts: set<Context>         // every context that exists
    ghost var table: map<nat, Context>       // what a plain map from flow IDs would hold

    /** What a bin holds is indexed and belongs there. */
    ghost predicate BinsHold()
      reads this`contexts, bins, contexts
    {
      && bins.Length == NUM_BINS
      && (forall i :: 0 <= i < NUM_BINS ==> Distinct(bins[i]))
      && (forall i, k :: 0 <= i < NUM_BINS && 0 <= k < |bins[i]| ==>
            bins[i][k] in contexts && bins[i][k].onMap && bins[i][k].flowId % NUM_BINS == i)
    }

    /** What is indexed is in its bin and in the plain map under its flow ID, and was not sent as a SYN. */
    ghost predicate IndexedFound()
      requires bins.Length == NUM_BINS
      reads this, bins, contexts
    {
      forall c :: c in contexts && c.onMap ==>
        c in bins[c.flowId % NUM_BINS] && c.flowId in table && table[c.flowId] == c && !c.state.SynSent?
    }

    /** The plain map holds indexed contexts only. */
    ghost predicate TableIndexed()
      reads this, contexts
    {
      forall fid :: fid in table ==> table[fid] in contexts && table[fid].onMap && table[fid].flowId == fid
    }

    ghost predicate Valid()
      reads this, bins, contexts
    {
      BinsHold() && IndexedFound() && TableIndexed()
    }

    /** InitializeFlowIDMap. */
    constructor ()
      ensures Valid() && contexts == {} && table == map[] && fresh(bins)
    {
      bins := new seq<Context>[NUM_BINS](_ => []);
      contexts, table := {}, map[];
    }

    /** DTPGetContextByFlowID agrees with the plain map. */
    method Lookup(fid: nat) returns (c: Context?)
      requires Valid()
      ensures if fid in table then c == table[fid] else c == null
    {
      var bin := bins[fid % NUM_BINS];
      var k := 0;
      while k < |bin|
        invariant 0 <= k <= |bin|
        invariant forall j :: 0 <= j < k ==> bin[j].flowId != fid
      {
        if bin[k].flowId == fid {
          return bin[k];
        }
        k := k + 1;
      }
      return null;
    }

    /** Each flow ID has at most one indexed context. */
    lemma FlowIdsAreUnique(a: Context, b: Context)
      requires Valid() && a in contexts && b in contexts && a.onMap && b.onMap && a.flowId == b.flowId
      ensures a == b
    {
    }

    /** DTPAddContextToFlowIDMap. */
    method Add(c: Context)
      requires Valid() && c in contexts && !c.onMap && c.flowId !in table && !c.state.SynSent?
      modifies this`table, bins, c`onMap
      ensures Valid() && c.onMap && table == old(table)[c.flowId := c]
    {
      var idx := c.flowId % NUM_BINS;
      bins[idx] := [c] + bins[idx];
      c.onMap := true;
      table := table[c.flowId := c];
    }

    /** DTPRemoveContextFromFlowIDMap: the bin computed from the flow ID is the one the context was put into. */
    method Remove(c: Context)
      requires Valid() && c in contexts
      modifies this`table, bins, c`onMap
      ensures Valid() && !c.onMap
      ensures table == if old(c.onMap) then old(table) - {c.flowId} else old(table)
    {
      if c.onMap {
        var idx := c.flowId % NUM_BINS;
        var k :| 0 <= k < |bins[idx]| && bins[idx][k] == c;
        bins[idx] := Without(bins[idx], k);
        c.onMap := false;
        table := table - {c.flowId};
      }
    }

    /** DTPCreateContext: the flag starts cleared. */
    method Create() returns (c: Context)
      requires Valid()
      modifies this`contexts
      ensures Valid() && fresh(c) && !c.onMap && c.state == Closed && contexts == old(contexts) + {c}
    {
      c := new Context();
      contexts := contexts + {c};
    }

    /** HandleSYNPacket: a known flow ID from the same host is answered again, from another host refused; an
        unknown one gets a context of its own. */
    method HandleSyn(fid: nat, hostId: seq<bv8>, mayAccept: bool, mayCreate: bool) returns (reply: Reply)
      requires Valid()
      modifies this, bins
      ensures Valid()
      ensures fid in old(table) ==>
        table == old(table) && contexts == old(contexts) &&
        reply == if old(table)[fid].hostId == hostId then Resend(old(table)[fid]) else Reset
      ensures fid !in old(table) && !(mayAccept && mayCreate) ==>
        table == old(table) && contexts == old(contexts) && reply == if mayAccept then Drop else Reset
      ensures fid !in old(table) && mayAccept && mayCreate ==>
        reply.Accept? && fresh(reply.ctx) && table == old(table)[fid := reply.ctx] &&
        contexts == old(contexts) + {reply.ctx} && reply.ctx.hostId == hostId && reply.ctx.state == SynRcvd
    {
      var found := Lookup(fid);
      if found != null {
        return if found.hostId == hostId then Resend(found) else Reset;
      }
      if !mayAccept {
        return Reset;
      }
      if !mayCreate {
        return Drop;
      }
      var c := Create();
      c.flowId, c.state, c.hostId := fid, SynRcvd, hostId;
      Add(c);
      return Accept(c);
    }

    /** The end of a context. */
    method Close(c: Context)
      requires Valid() && c in contexts
      modifies this, bins, c`onMap
      ensures Valid() && contexts == old(contexts) - {c}
      ensures table == if old(c.onMap) then old(table) - {c.flowId} else old(table)
    {
      Remove(c);
      contexts := contexts - {c};
    }

    /** dtp_connect gives a context that was not accepted a flow ID of its own choice. */
    method Connect(c: Context, fid: nat)
      requires Valid() && c in contexts && !c.onMap
      modifies c`flowId, c`state
      ensures Valid() && c.flowId == fid && c.state == SynSent
    {
      c.flowId, c.state := fid, SynSent;
    }

    /** A context moves on in the protocol. */
    method Progress(c: Context, state: State)
      requires Valid() && c in contexts && !state.SynSent?
      modifies c`state
      ensures Valid() && c.state == state
    {
      c.state := state;
    }

    /** HandleRSTPacket: only a context still waiting for its SYN to be answered takes a new flow ID, and such a
        context is not in the index. */
    method HandleRst(c: Context, hostId: seq<bv8>, newId: nat)
      requires Valid() && c in contexts
      modifies c`flowId, c`state
      ensures Valid()
      ensures c.flowId == if c.hostId == hostId && old(c.state) == SynSent then newId else old(c.flowId)
      ensures c.state == if c.hostId == hostId && (old(c.state) == Established || old(c.state) == LastAck)
                         then Closed else old(c.state)
      ensures c.onMap ==> c.flowId == old(c.flowId)
    {
      if c.hostId != hostId {
        return;
      }
      if c.state == SynSent {
        c.flowId := newId;
      } else if c.state == Established || c.state == LastAck {
        c.state := Closed;
      }
    }
  }
}
